/** `WikiProvider`: the store that owns the page forest, the active page and
    the save status, and the operations the UI calls on it. Each operation
    updates the state cells as the provider's `useState` setters do; the tree
    work is done by the pure transforms of `Edits` and `Duplication`. */
module WikiStore {
  import opened PageModel
  import opened Lookup
  import opened Locus
  import opened Edits
  import opened Duplication

  datatype SaveStatus = Saved | Saving | Error | Unsaved

  /** A clock reading supplied by the caller (the source's `new Date()`). */
  type Timestamp = nat

  /** The page `addPage` builds: default title by kind; a folder starts with
      an empty children array, expanded and without content; a document starts
      with empty content and neither children nor an expansion flag. */
  function NewPage(kind: Kind, id: Id): (p: Page)
    ensures p.id == id && p.kind == kind
    ensures p.title == (if kind == Document then "New Document" else "New Folder")
    ensures kind == Folder ==>
      p.children == Present([]) && p.isExpanded == Some(true) && p.content == None
    ensures kind == Document ==>
      p.children == Absent && p.isExpanded == None && p.content == Some("")
    ensures Kids(p) == [] && Ids([p]) == [id]
  {
    var p := Page(
      id,
      if kind == Document then "New Document" else "New Folder",
      kind,
      if kind == Folder then Present([]) else Absent,
      if kind == Folder then Some(true) else None,
      if kind == Document then Some("") else None);
    IdsOfPage(p);
    p
  }

  /** `if (!parentId)`: an absent or empty parent id means the root list. */
  predicate AtRoot(parentId: Option<Id>)
  {
    parentId.None? || parentId.value == ""
  }

  /** What `forceSave` saves, if anything: a non-empty active id whose page
      is found and has defined content. */
  predicate HasSaveTarget(active: Option<Id>, ps: seq<Page>)
  {
    && active.Some? && active.value != ""
    && Find(active.value, ps).Some?
    && Find(active.value, ps).value.content.Some?
  }

  /** The forest the provider starts with. */
  function InitialPages(): seq<Page>
  {
    [ Page("1", "Getting Started", Folder,
        Present([ Page("1-1", "Welcome", Document, Absent, None, Some("Welcome to the wiki!")),
                  Page("1-2", "Quick Start", Document, Absent, None, None) ]),
        Some(true), None),
      Page("2", "Documentation", Folder,
        Present([ Page("2-1", "Installation", Document, Absent, None, None) ]),
        Some(false), None) ]
  }

  /** The ids of a page without children. */
  lemma LeafIds(p: Page)
    requires Kids(p) == []
    ensures Ids([p]) == [p.id]
  {
    IdsOfPage(p);
  }

  lemma InitialIds()
    ensures Ids(InitialPages()) == ["1", "1-1", "1-2", "2", "2-1"]
    ensures UniqueIds(InitialPages())
  {
    var ps := InitialPages();
    var f1, f2 := ps[0], ps[1];
    var k1, k2 := Kids(f1), Kids(f2);
    LeafIds(k1[0]);
    LeafIds(k1[1]);
    LeafIds(k2[0]);
    assert k1 == [k1[0]] + [k1[1]] && k2 == [k2[0]];
    IdsConcat([k1[0]], [k1[1]]);
    IdsOfPage(f1);
    IdsOfPage(f2);
    assert ps == [f1] + [f2];
    IdsConcat([f1], [f2]);
    var ids := ["1", "1-1", "1-2", "2", "2-1"];
    assert Ids(ps) == ids;
    assert Distinct(ids) by {
      forall i, j | 0 <= i < j < |ids| ensures ids[i] != ids[j] {
        assert |ids[i]| != |ids[j]| || ids[i][0] != ids[j][0] || ids[i][2] != ids[j][2];
      }
    }
  }

  class Wiki {
    var pages: seq<Page>
    var activePage: Option<Id>
    var saveStatus: SaveStatus
    var lastSaved: Option<Timestamp>

    /** Ids are unique across the whole forest. */
    ghost predicate Valid()
      reads this
    {
      UniqueIds(pages)
    }

    constructor ()
      ensures Valid()
      ensures pages == InitialPages() && activePage == None
      ensures saveStatus == Saved && lastSaved == None
    {
      pages := InitialPages();
      activePage := None;
      saveStatus := Saved;
      lastSaved := None;
      InitialIds();
    }

    /** `setActivePage`, exposed as it is. */
    method SetActivePage(id: Option<Id>)
      modifies this
      ensures activePage == id
      ensures pages == old(pages) && saveStatus == old(saveStatus) && lastSaved == old(lastSaved)
    {
      activePage := id;
    }

    /** `getPage`: the first page in pre-order with this id. */
    method GetPage(id: Id) returns (r: Option<Page>)
      ensures r == Find(id, pages)
      ensures r.None? <==> id !in Ids(pages)
      ensures r.Some? ==> r.value.id == id
    {
      FindIsFirstInPreorder(id, pages);
      r := FindPage(id, pages);
    }

    /** `addPage`, with the id the source takes from the clock passed in as
        `newId`, assumed fresh. */
    method AddPage(kind: Kind, parentId: Option<Id>, newId: Id)
      requires Valid()
      requires newId !in Ids(pages)
      modifies this
      ensures Valid()
      ensures AtRoot(parentId) ==> pages == old(pages) + [NewPage(kind, newId)]
      ensures !AtRoot(parentId) ==> pages == AddChild(old(pages), parentId.value, NewPage(kind, newId))
      ensures !AtRoot(parentId) && Find(parentId.value, old(pages)).None? ==> pages == old(pages)
      ensures !AtRoot(parentId) && Find(parentId.value, old(pages)).Some? ==>
        pages == Fill(Locate(parentId.value, old(pages)),
                      [Expand(Find(parentId.value, old(pages)).value, NewPage(kind, newId))])
      ensures Count(pages) == Count(old(pages)) +
        (if AtRoot(parentId) || Find(parentId.value, old(pages)).Some? then 1 else 0)
      ensures activePage == (if kind == Document then Some(newId) else old(activePage))
      ensures saveStatus == old(saveStatus) && lastSaved == old(lastSaved)
    {
      var newPage := NewPage(kind, newId);
      if AtRoot(parentId) {
        IdsConcat(pages, [newPage]);
        DistinctConcat(Ids(pages), [newId]);
        pages := pages + [newPage];
      } else {
        AddChildEffect(pages, parentId.value, newPage);
        pages := AddChild(pages, parentId.value, newPage);
      }
      if kind == Document {
        activePage := Some(newId);
      }
    }

    /** `deletePage`: the page and its subtree go; the active page is cleared
        only when it is the deleted page itself. */
    method DeletePage(id: Id)
      requires Valid()
      modifies this
      ensures Valid()
      ensures pages == Delete(old(pages), id)
      ensures id !in Ids(pages)
      ensures Find(id, old(pages)).None? ==> pages == old(pages)
      ensures Find(id, old(pages)).Some? ==>
        && pages == Fill(Locate(id, old(pages)), [])
        && Count(pages) == Count(old(pages)) - Size(Find(id, old(pages)).value)
      ensures activePage == (if old(activePage) == Some(id) then None else old(activePage))
      ensures saveStatus == old(saveStatus) && lastSaved == old(lastSaved)
    {
      DeleteEffect(pages, id);
      DeleteRemovesAll(pages, id);
      pages := Delete(pages, id);
      if activePage == Some(id) {
        activePage := None;
      }
    }

    /** `renamePage`. The store accepts any title; the sidebar rejects blank
        ones before calling. */
    method RenamePage(id: Id, newTitle: string)
      requires Valid()
      modifies this
      ensures Valid()
      ensures pages == Retitle(old(pages), id, newTitle)
      ensures Find(id, old(pages)).None? ==> pages == old(pages)
      ensures Find(id, old(pages)).Some? ==>
        pages == Fill(Locate(id, old(pages)), [Find(id, old(pages)).value.(title := newTitle)])
      ensures activePage == old(activePage)
      ensures saveStatus == old(saveStatus) && lastSaved == old(lastSaved)
    {
      RetitleEffect(pages, id, newTitle);
      pages := Retitle(pages, id, newTitle);
    }

    /** `toggleFolder`. */
    method ToggleFolder(id: Id)
      requires Valid()
      modifies this
      ensures Valid()
      ensures pages == Toggle(old(pages), id)
      ensures Find(id, old(pages)).None? ==> pages == old(pages)
      ensures Find(id, old(pages)).Some? ==>
        pages == Fill(Locate(id, old(pages)), [Flip(Find(id, old(pages)).value)])
      ensures activePage == old(activePage)
      ensures saveStatus == old(saveStatus) && lastSaved == old(lastSaved)
    {
      ToggleEffect(pages, id);
      pages := Toggle(pages, id);
    }

    /** `updatePageContent`: the content changes and the status is always
        `Unsaved`, whether or not the id was found. */
    method UpdatePageContent(id: Id, content: string)
      requires Valid()
      modifies this
      ensures Valid()
      ensures pages == SetContent(old(pages), id, content)
      ensures Find(id, old(pages)).None? ==> pages == old(pages)
      ensures Find(id, old(pages)).Some? ==>
        pages == Fill(Locate(id, old(pages)), [Find(id, old(pages)).value.(content := Some(content))])
      ensures saveStatus == Unsaved
      ensures activePage == old(activePage) && lastSaved == old(lastSaved)
    {
      SetContentEffect(pages, id, content);
      pages := SetContent(pages, id, content);
      saveStatus := Unsaved;
    }

    /** `saveContent` up to its `await`. */
    method BeginSave()
      modifies this
      ensures saveStatus == Saving
      ensures pages == old(pages) && activePage == old(activePage) && lastSaved == old(lastSaved)
    {
      saveStatus := Saving;
    }

    /** `saveContent` after its `await`; `persisted` says whether the
        persistence step succeeded and `now` is the clock reading. On failure
        the forest and `lastSaved` are untouched. */
    method FinishSave(pageId: Id, content: string, persisted: bool, now: Timestamp)
      requires Valid()
      modifies this
      ensures Valid()
      ensures persisted ==>
        pages == SetContent(old(pages), pageId, content) && lastSaved == Some(now) && saveStatus == Saved
      ensures !persisted ==>
        pages == old(pages) && lastSaved == old(lastSaved) && saveStatus == Error
      ensures activePage == old(activePage)
    {
      if persisted {
        SetContentEffect(pages, pageId, content);
        pages := SetContent(pages, pageId, content);
        lastSaved := Some(now);
        saveStatus := Saved;
      } else {
        saveStatus := Error;
      }
    }

    /** `saveContent`, run to completion. */
    method SaveContent(pageId: Id, content: string, persisted: bool, now: Timestamp)
      requires Valid()
      modifies this
      ensures Valid()
      ensures persisted ==>
        pages == SetContent(old(pages), pageId, content) && lastSaved == Some(now) && saveStatus == Saved
      ensures !persisted ==>
        pages == old(pages) && lastSaved == old(lastSaved) && saveStatus == Error
      ensures activePage == old(activePage)
    {
      BeginSave();
      FinishSave(pageId, content, persisted, now);
    }

    /** `forceSave`: nothing happens without a (non-empty) active id, or when
        its page is not found or has no content. Otherwise the content read
        now is saved; since it is written back to the page it came from, the
        forest is the same afterwards, and the status ends `Saved` (with
        `lastSaved` set) or `Error`. */
    method ForceSave(persisted: bool, now: Timestamp)
      requires Valid()
      modifies this
      ensures Valid()
      ensures pages == old(pages) && activePage == old(activePage)
      ensures !HasSaveTarget(old(activePage), old(pages)) ==>
        saveStatus == old(saveStatus) && lastSaved == old(lastSaved)
      ensures HasSaveTarget(old(activePage), old(pages)) && persisted ==>
        saveStatus == Saved && lastSaved == Some(now)
      ensures HasSaveTarget(old(activePage), old(pages)) && !persisted ==>
        saveStatus == Error && lastSaved == old(lastSaved)
    {
      if activePage.None? || activePage.value == "" {
        return;
      }
      var id := activePage.value;
      var current := FindPage(id, pages);
      if current.Some? && current.value.content.Some? {
        SetContentSame(pages, id);
        SaveContent(id, current.value.content.value, persisted, now);
      }
    }

    /** `duplicatePage`, with the ids the source draws from the clock and a
        random source passed in as `newIds`, assumed fresh and distinct; the
        copy uses as many of them as the original subtree has nodes. */
    method DuplicatePage(id: Id, newIds: seq<Id>)
      requires Valid()
      requires Find(id, pages).Some? ==> Size(Find(id, pages).value) <= |newIds|
      requires Distinct(newIds)
      requires forall x :: x in newIds ==> x !in Ids(pages)
      modifies this
      ensures Valid()
      ensures Find(id, old(pages)).None? ==> pages == old(pages)
      ensures Find(id, old(pages)).Some? ==>
        var n := Find(id, old(pages)).value;
        var copy := DuplicateWithNewIds(n, newIds);
        && pages == Fill(Locate(id, old(pages)), [n, copy])
        && Count(pages) == Count(old(pages)) + Size(n)
        && Ids([copy]) == newIds[..Size(n)]
        && Skeleton([copy]) == Skeleton([n])
        && Titles([copy]) == Suffixed(Titles([n]))
      ensures activePage == old(activePage)
      ensures saveStatus == old(saveStatus) && lastSaved == old(lastSaved)
    {
      var source := FindPage(id, pages);
      if source.None? {
        return;
      }
      var copy := DuplicateWithNewIds(source.value, newIds);
      DuplicateWithNewIdsEffect(source.value, newIds);
      InsertDuplicateEffect(pages, id, copy);
      pages := InsertDuplicate(pages, id, copy);
    }
  }
}
