/**
 * The PDF rename tool that also mails the renamed file: the backend's
 * grow-on-demand display-list cache, `rename_pdf`'s checks and the new
 * file name, and the body text of `send_email`.
 */
module PdfRenameMail {
  import opened Wrappers
  import opened Strings
  import opened Paths
  import opened PdfViewer

  /** The display-list cache: slot `k` holds page `k`'s display list once it has been rendered. */
  type Cache = seq<Option<DisplayList>>

  /** `[None] * (k + 1 - len(tab))`: nothing when the list is already long enough. */
  function Padding(tab: Cache, k: nat): (pad: Cache)
    ensures |tab + pad| == if |tab| < k + 1 then k + 1 else |tab|
    ensures forall i :: 0 <= i < |pad| ==> pad[i].None?
  {
    if |tab| < k + 1 then seq(k + 1 - |tab|, _ => None) else []
  }

  /**
   * `get_page(k)` on the cache: when slot `k` is missing or empty, the list
   * is padded with `None` up to `k` and page `k` of the open document is
   * rendered into it; otherwise the cached entry is used. Rendering a page
   * the document does not have (or with no document open) raises after the
   * padding, which is the `None` result.
   */
  function Lookup(tab: Cache, doc: Option<Doc>, k: nat): (Cache, Option<DisplayList>) {
    if |tab| < k + 1 || tab[k].None? then
      var grown := tab + Padding(tab, k);
      if doc.Some? && k < doc.value.pageCount then
        var rendered := DisplayList(doc.value.path, k);
        (grown[k := Some(rendered)], Some(rendered))
      else
        (grown, None)
    else
      (tab, tab[k])
  }

  /**
   * What a lookup does to the list: it is at least `k + 1` long, earlier
   * slots other than `k` are kept, new slots other than `k` are `None`, and
   * slot `k` holds what was returned.
   */
  lemma LookupShape(tab: Cache, doc: Option<Doc>, k: nat)
    ensures var (t, r) := Lookup(tab, doc, k);
            && |t| == (if |tab| < k + 1 then k + 1 else |tab|)
            && (forall i :: 0 <= i < |tab| && i != k ==> t[i] == tab[i])
            && (forall i :: |tab| <= i < |t| && i != k ==> t[i].None?)
            && t[k] == r
  {
  }

  /** A page of the open document is always returned, and is afterwards cached in slot `k`. */
  lemma LookupRenders(tab: Cache, doc: Option<Doc>, k: nat)
    requires doc.Some? && k < doc.value.pageCount
    ensures var (t, r) := Lookup(tab, doc, k);
            r.Some? && t[k] == r
  {
  }

  /** A slot that is already filled is returned as it is, and nothing is rendered or changed. */
  lemma LookupKeeps(tab: Cache, doc: Option<Doc>, k: nat)
    requires k < |tab| && tab[k].Some?
    ensures Lookup(tab, doc, k) == (tab, tab[k])
  {
  }

  /** Asking again for a page that was returned gives the same display list and changes nothing. */
  lemma LookupTwice(tab: Cache, doc: Option<Doc>, k: nat)
    requires Lookup(tab, doc, k).1.Some?
    ensures var (t, r) := Lookup(tab, doc, k);
            Lookup(t, doc, k) == (t, r)
  {
  }

  /** Every cached display list is the page of its slot in `doc`, which has that page. */
  predicate Belongs(tab: Cache, doc: Option<Doc>) {
    forall i :: 0 <= i < |tab| && tab[i].Some? ==>
      doc.Some? && i < doc.value.pageCount && tab[i].value == DisplayList(doc.value.path, i)
  }

  /**
   * While the cache belongs to the open document, a lookup keeps it so and
   * returns page `k` of that document.
   */
  lemma LookupBelongs(tab: Cache, doc: Option<Doc>, k: nat)
    requires Belongs(tab, doc)
    ensures var (t, r) := Lookup(tab, doc, k);
            && Belongs(t, doc)
            && (r.Some? ==> doc.Some? && r.value == DisplayList(doc.value.path, k))
  {
  }

  /**
   * The stale page: `set_doc` keeps the cache, so after `a.pdf` showed its
   * first page and `b.pdf` is opened, showing page 0 returns the display
   * list of `a.pdf`.
   */
  lemma StalePageAfterReopen()
    ensures var a := Doc("a.pdf", 1);
            var b := Doc("b.pdf", 1);
            var (t, _) := Lookup([], Some(a), 0);
            && Lookup(t, Some(b), 0).1 == Some(DisplayList("a.pdf", 0))
            && !Belongs(t, Some(b))
  {
    var t := Lookup([], Some(Doc("a.pdf", 1)), 0).0;
    assert t[0] == Some(DisplayList("a.pdf", 0));
    assert "a.pdf" != "b.pdf" by {
      assert "a.pdf"[0] != "b.pdf"[0];
    }
  }

  /** With the cache cleared on opening, the first lookup of every page renders the newly opened document. */
  lemma FreshCacheBelongs(doc: Doc)
    ensures Belongs([], Some(doc))
  {
  }

  /** `GuiBackend`: the open document and the display-list cache. */
  class GuiBackend {
    var doc: Option<Doc>
    var docListTab: Cache

    constructor ()
      ensures doc == None && docListTab == []
    {
      doc := None;
      docListTab := [];
    }

    /**
     * `set_doc` as written: the document changes, the cache stays. Returns
     * the base name shown in the window.
     */
    method SetDoc(path: string, pageCount: nat) returns (fileName: string)
      modifies this
      ensures doc == Some(Doc(path, pageCount)) && docListTab == old(docListTab)
      ensures fileName == BaseName(path)
    {
      doc := Some(Doc(path, pageCount));
      fileName := BaseName(path);
    }

    /** `set_doc` as evidently intended: opening a document also empties the cache. */
    method SetDocFresh(path: string, pageCount: nat) returns (fileName: string)
      modifies this
      ensures doc == Some(Doc(path, pageCount)) && docListTab == []
      ensures Belongs(docListTab, doc)
      ensures fileName == BaseName(path)
    {
      doc := Some(Doc(path, pageCount));
      docListTab := [];
      fileName := BaseName(path);
    }

    /** `get_page(page_num)`: the cache bookkeeping, with `extend` and index assignment in place. */
    method GetPage(pageNum: nat) returns (r: Option<DisplayList>)
      modifies this
      ensures doc == old(doc)
      ensures (docListTab, r) == Lookup(old(docListTab), doc, pageNum)
    {
      if |docListTab| < pageNum + 1 || docListTab[pageNum].None? {
        docListTab := docListTab + Padding(docListTab, pageNum);
        if doc.None? || pageNum >= doc.value.pageCount {
          return None;
        }
        docListTab := docListTab[pageNum := Some(DisplayList(doc.value.path, pageNum))];
      }
      r := docListTab[pageNum];
    }
  }

  /** Why `rename_pdf` does not rename, or the new name and path when it does. */
  datatype RenameOutcome =
    | BadDate                  // the date is not eight digits
    | BadAmount                // the amount is not all digits
    | NoSection                // the section is empty
    | MissingField             // some field is empty (only the partner can be by now)
    | NoDocument               // no document is open: nothing happens
    | Renamed(newName: string, newPath: string)

  /** The fields of the new name: `不` is appended for a rejected document (`adopted_text`). */
  function NameFields(date: string, partner: string, amount: string, section: string, notAdopted: bool): seq<string> {
    [date, partner, amount, section] + (if notAdopted then ["不"] else [])
  }

  /** `f'{date}_{partner}_{amount}_{section}{adopted_text}.pdf'`: the fields joined with `_`, then `.pdf`. */
  function NewFileName(date: string, partner: string, amount: string, section: string, notAdopted: bool): string {
    Join(NameFields(date, partner, amount, section, notAdopted), '_') + ".pdf"
  }

  /** `rename_pdf`: the checks in order, then the new name in the document's own folder. */
  function RenamePdf(date: string, partner: string, amount: string, section: string, notAdopted: bool, docName: string)
    : RenameOutcome
  {
    if !IsDigitString(date) || |date| != 8 then BadDate
    else if !IsDigitString(amount) then BadAmount
    else if section == "" then NoSection
    else if date != "" && partner != "" && amount != "" && section != "" then
      if docName != "" then
        var name := NewFileName(date, partner, amount, section, notAdopted);
        Renamed(name, JoinPath(DirName(docName), name))
      else NoDocument
    else MissingField
  }

  /** The file is renamed exactly when every field is valid and a document is open. */
  lemma RenameExactly(date: string, partner: string, amount: string, section: string, notAdopted: bool, docName: string)
    ensures RenamePdf(date, partner, amount, section, notAdopted, docName).Renamed?
            <==> (&& IsDigitString(date) && |date| == 8 && IsDigitString(amount)
                  && section != "" && partner != "" && docName != "")
  {
  }

  /**
   * Each rejection names the first check that fails; an empty partner is
   * the only way to reach "enter everything".
   */
  lemma RenameRejections(date: string, partner: string, amount: string, section: string, notAdopted: bool, docName: string)
    ensures var r := RenamePdf(date, partner, amount, section, notAdopted, docName);
            && (r == BadDate <==> !(IsDigitString(date) && |date| == 8))
            && (r == BadAmount <==> IsDigitString(date) && |date| == 8 && !IsDigitString(amount))
            && (r == NoSection <==> IsDigitString(date) && |date| == 8 && IsDigitString(amount) && section == "")
            && (r == MissingField <==> IsDigitString(date) && |date| == 8 && IsDigitString(amount)
                                       && section != "" && partner == "")
  {
  }

  /**
   * The renamed file stays in the document's folder under the new name,
   * as long as partner and section hold no `/`.
   */
  lemma RenamedInPlace(date: string, partner: string, amount: string, section: string, notAdopted: bool, docName: string)
    requires RenamePdf(date, partner, amount, section, notAdopted, docName).Renamed?
    requires '/' !in partner && '/' !in section
    ensures var r := RenamePdf(date, partner, amount, section, notAdopted, docName);
            && BaseName(r.newPath) == r.newName
            && DirName(r.newPath) == DirName(docName)
  {
    var name := NewFileName(date, partner, amount, section, notAdopted);
    NameHasNoSlash(date, partner, amount, section, notAdopted);
    BaseNameOfJoin(DirName(docName), name);
    DirNameOfJoin(docName, name);
  }

  /** Digits, `_`, `不` and `.pdf` add no `/` to the name. */
  lemma NameHasNoSlash(date: string, partner: string, amount: string, section: string, notAdopted: bool)
    requires AllDigits(date) && AllDigits(amount) && '/' !in partner && '/' !in section
    ensures var name := NewFileName(date, partner, amount, section, notAdopted);
            name != [] && '/' !in name
  {
    DigitsAvoid(date, '/');
    DigitsAvoid(amount, '/');
    JoinAvoids(NameFields(date, partner, amount, section, notAdopted), '_', '/');
  }

  /** A digit string holds no character other than a digit. */
  lemma DigitsAvoid(s: string, c: char)
    requires AllDigits(s) && !IsDigit(c)
    ensures c !in s
  {
  }

  /**
   * The new name reads back: it ends in `.pdf`, and the rest split at `_`
   * gives date, partner, amount and section, then `不` exactly for a
   * rejected document, as long as partner and section hold no `_`.
   */
  lemma NewFileNameFields(date: string, partner: string, amount: string, section: string, notAdopted: bool)
    requires AllDigits(date) && AllDigits(amount) && '_' !in partner && '_' !in section
    ensures var name := NewFileName(date, partner, amount, section, notAdopted);
            && |name| >= 4 && name[|name| - 4..] == ".pdf"
            && Split(name[..|name| - 4], '_')
               == [date, partner, amount, section] + (if notAdopted then ["不"] else [])
  {
    var fields := NameFields(date, partner, amount, section, notAdopted);
    DigitsAvoid(date, '_');
    DigitsAvoid(amount, '_');
    SplitJoin(fields, '_');
    var name := NewFileName(date, partner, amount, section, notAdopted);
    assert name[..|name| - 4] == Join(fields, '_');
  }

  /** A rejected document's new name differs from the adopted one. */
  lemma NotAdoptedNamesDiffer(date: string, partner: string, amount: string, section: string)
    requires AllDigits(date) && AllDigits(amount) && '_' !in partner && '_' !in section
    ensures NewFileName(date, partner, amount, section, true) != NewFileName(date, partner, amount, section, false)
  {
    NewFileNameFields(date, partner, amount, section, true);
    NewFileNameFields(date, partner, amount, section, false);
  }

  /** The first line of the mail. */
  const MailIntro: string := "次のとおり電子取引データを送付するのでよろしくお願いします\U{1F337} "

  /** The line added for a rejected document. */
  function NotAdoptedLine(section: string): string {
    "この" + section + "は採用されませんでした\U{1F937}"
  }

  /** The lines of the mail: the intro, a blank line, the four fields, and the rejection line when set. */
  function MailLines(date: string, partner: string, amount: string, section: string, notAdopted: bool): seq<string> {
    [MailIntro, "", "日　　付:" + date, "取引先名:" + partner, "金　　額:" + amount, "区　　分:" + section]
    + (if notAdopted then [NotAdoptedLine(section)] else [])
  }

  /** The body `send_email` composes: every line followed by a newline. */
  function MailBody(date: string, partner: string, amount: string, section: string, notAdopted: bool): string {
    Join(MailLines(date, partner, amount, section, notAdopted) + [""], '\n')
  }

  /** The fixed text of the mail holds no newline of its own. */
  lemma LabelsSingleLine()
    ensures '\n' !in MailIntro && '\n' !in "日　　付:" && '\n' !in "取引先名:"
    ensures '\n' !in "金　　額:" && '\n' !in "区　　分:" && '\n' !in "この" && '\n' !in "は採用されませんでした\U{1F937}"
  {
  }

  /**
   * Read line by line, the body is the intro, a blank line, date, partner,
   * amount and section in that order, then the rejection line exactly when
   * the document was not adopted; fields are taken to be single lines.
   */
  lemma MailBodyLines(date: string, partner: string, amount: string, section: string, notAdopted: bool)
    requires '\n' !in date && '\n' !in partner && '\n' !in amount && '\n' !in section
    ensures var lines := Split(MailBody(date, partner, amount, section, notAdopted), '\n');
            && lines == MailLines(date, partner, amount, section, notAdopted) + [""]
            && lines[..6] == [MailIntro, "", "日　　付:" + date, "取引先名:" + partner, "金　　額:" + amount, "区　　分:" + section]
            && (|lines| == 8 <==> notAdopted)
            && (notAdopted ==> lines[6] == NotAdoptedLine(section))
  {
    var lines := MailLines(date, partner, amount, section, notAdopted) + [""];
    LabelsSingleLine();
    assert forall i :: 0 <= i < |lines| ==> '\n' !in lines[i];
    SplitJoin(lines, '\n');
  }

  /**
   * The send-mail button: rename first, and only when a new name came back,
   * attach the file at the document's folder joined with that name.
   */
  function MailAttachment(date: string, partner: string, amount: string, section: string, notAdopted: bool, docName: string)
    : Option<string>
  {
    var outcome := RenamePdf(date, partner, amount, section, notAdopted, docName);
    if outcome.Renamed? then Some(JoinPath(DirName(docName), outcome.newName)) else None
  }

  /** A mail is prepared exactly when the rename happened, and it attaches the renamed file. */
  lemma MailAttachesRenamed(date: string, partner: string, amount: string, section: string, notAdopted: bool, docName: string)
    ensures var outcome := RenamePdf(date, partner, amount, section, notAdopted, docName);
            var attachment := MailAttachment(date, partner, amount, section, notAdopted, docName);
            && (attachment.Some? <==> outcome.Renamed?)
            && (attachment.Some? ==> attachment.value == outcome.newPath)
  {
  }
}
