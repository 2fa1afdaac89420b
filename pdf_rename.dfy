/**
 * The plain PDF rename tool: its backend renders every page afresh, and
 * the execute button renames the document to `{date}_{partner}_{amount}.pdf`
 * in its own folder.
 */
module PdfRename {
  import opened Wrappers
  import opened Strings
  import opened Paths
  import opened PdfViewer
  import PdfRenameMail

  /** `GuiBackend`: only the open document; the display-list table is rebuilt on every call. */
  class GuiBackend {
    var doc: Option<Doc>

    constructor ()
      ensures doc == None
    {
      doc := None;
    }

    /** `set_doc`: open the document and return its base name. */
    method SetDoc(path: string, pageCount: nat) returns (fileName: string)
      modifies this
      ensures doc == Some(Doc(path, pageCount))
      ensures fileName == BaseName(path)
    {
      doc := Some(Doc(path, pageCount));
      fileName := BaseName(path);
    }

    /** `get_doc_list_tab`: a fresh list of `None`, one per page. */
    method GetDocListTab() returns (tab: seq<Option<DisplayList>>)
      requires doc.Some?
      ensures |tab| == doc.value.pageCount
      ensures forall i :: 0 <= i < |tab| ==> tab[i].None?
    {
      tab := seq(doc.value.pageCount, _ => None);
    }

    /**
     * `get_page(page_num)`: the entry of a fresh table is always empty, so
     * the page is rendered every time. A page the document does not have
     * raises when the table is indexed, which is the `None` result.
     */
    method GetPage(pageNum: nat) returns (r: Option<DisplayList>)
      requires doc.Some?
      ensures r.Some? <==> pageNum < doc.value.pageCount
      ensures r.Some? ==> r.value == DisplayList(doc.value.path, pageNum)
    {
      var first := GetDocListTab();
      if pageNum >= |first| {
        return None;
      }
      var docList := first[pageNum];
      var tab := GetDocListTab();
      if docList.None? {
        tab := tab[pageNum := Some(DisplayList(doc.value.path, pageNum))];
        docList := tab[pageNum];
      }
      r := docList;
    }
  }

  /**
   * Rendering afresh shows what the caching tool shows whenever its cache
   * belongs to the open document: the cache saves work and changes no page.
   */
  lemma SameAsCached(tab: PdfRenameMail.Cache, doc: Doc, k: nat)
    requires PdfRenameMail.Belongs(tab, Some(doc))
    ensures var r := PdfRenameMail.Lookup(tab, Some(doc), k).1;
            && (r.Some? <==> k < doc.pageCount)
            && (r.Some? ==> r.value == DisplayList(doc.path, k))
  {
    PdfRenameMail.LookupBelongs(tab, Some(doc), k);
    if k < doc.pageCount {
      PdfRenameMail.LookupRenders(tab, Some(doc), k);
    }
  }

  /** What the execute button leads to. */
  datatype ExecuteOutcome =
    | BadDate                                 // the date is not eight digits: `continue`
    | MissingField                            // "Please enter all fields"
    | NoDocument                              // "Please select a PDF file"
    | Renamed(newName: string, newPath: string)

  /** `f"{date}_{partner}_{amount}.pdf"`: the three fields joined with `_`, then `.pdf`. */
  function NewFileName(date: string, partner: string, amount: string): string {
    Join([date, partner, amount], '_') + ".pdf"
  }

  /** The execute button: the date check, the empty-field check, then the rename in the document's folder. */
  function ExecuteRename(date: string, partner: string, amount: string, docName: string): ExecuteOutcome {
    if !IsDigitString(date) || |date| != 8 then BadDate
    else if date != "" && partner != "" && amount != "" then
      if docName != "" then
        var name := NewFileName(date, partner, amount);
        Renamed(name, JoinPath(DirName(docName), name))
      else NoDocument
    else MissingField
  }

  /**
   * The document is renamed exactly when the date is eight digits, partner
   * and amount are non-empty and a document is open; the amount need not be
   * a number.
   */
  lemma ExecuteExactly(date: string, partner: string, amount: string, docName: string)
    ensures var r := ExecuteRename(date, partner, amount, docName);
            && (r.Renamed? <==> IsDigitString(date) && |date| == 8 && partner != "" && amount != "" && docName != "")
            && (r == BadDate <==> !(IsDigitString(date) && |date| == 8))
            && (r == MissingField <==> IsDigitString(date) && |date| == 8 && (partner == "" || amount == ""))
  {
  }

  /** An amount that is not a number is accepted. */
  lemma AmountNotChecked()
    ensures ExecuteRename("20240401", "shop", "abc", "in/a.pdf").Renamed?
  {
    assert IsDigitString("20240401") by {
      assert forall i :: 0 <= i < 8 ==> IsDigit("20240401"[i]);
    }
  }

  /**
   * The execute button is ignored while no document is open, so "Please
   * select a PDF file" can never be shown: any rename that runs after the
   * navigation step has a document.
   */
  lemma NoDocumentUnreachable(s: ViewerState, key: string, date: string, partner: string, amount: string)
    ensures var (t, a) := Step(s, Other(key));
            a != Skip ==> ExecuteRename(date, partner, amount, t.docName) != NoDocument
  {
  }

  /**
   * The renamed file stays in the document's folder under the new name,
   * as long as partner and amount hold no `/`.
   */
  lemma RenamedInPlace(date: string, partner: string, amount: string, docName: string)
    requires ExecuteRename(date, partner, amount, docName).Renamed?
    requires '/' !in partner && '/' !in amount
    ensures var r := ExecuteRename(date, partner, amount, docName);
            && BaseName(r.newPath) == r.newName
            && DirName(r.newPath) == DirName(docName)
  {
    var name := NewFileName(date, partner, amount);
    NameHasNoSlash(date, partner, amount);
    BaseNameOfJoin(DirName(docName), name);
    DirNameOfJoin(docName, name);
  }

  /** Digits, `_` and `.pdf` add no `/` to the name. */
  lemma NameHasNoSlash(date: string, partner: string, amount: string)
    requires AllDigits(date) && '/' !in partner && '/' !in amount
    ensures var name := NewFileName(date, partner, amount);
            name != [] && '/' !in name
  {
    PdfRenameMail.DigitsAvoid(date, '/');
    JoinAvoids([date, partner, amount], '_', '/');
  }

  /**
   * The new name reads back: it ends in `.pdf`, and the rest split at `_`
   * gives date, partner and amount, as long as partner and amount hold no `_`.
   */
  lemma NewFileNameFields(date: string, partner: string, amount: string)
    requires AllDigits(date) && '_' !in partner && '_' !in amount
    ensures var name := NewFileName(date, partner, amount);
            && |name| >= 4 && name[|name| - 4..] == ".pdf"
            && Split(name[..|name| - 4], '_') == [date, partner, amount]
  {
    PdfRenameMail.DigitsAvoid(date, '_');
    SplitJoin([date, partner, amount], '_');
    var name := NewFileName(date, partner, amount);
    assert name[..|name| - 4] == Join([date, partner, amount], '_');
  }
}
