/** The tree transforms of the store. The source has five map-and-recurse
    traversals (`updateChildren`, `updateTitle`, `toggle`, and `updateContent`
    in both `saveContent` and `updatePageContent`), the filter in
    `deleteFromPages`, and the flattening map in `insertDuplicate`. Each walks
    the sibling list, replaces every page whose id matches (without descending
    into it), and rebuilds the children array of every other page that has
    one. `Rewrite` is that traversal once; each operation supplies what a
    matching page becomes (nothing, for the filter). */
module Edits {
  import opened PageModel
  import opened Lookup
  import opened Locus

  function Rewrite(ps: seq<Page>, id: Id, g: Page -> seq<Page>): seq<Page>
  {
    if ps == [] then []
    else
      var head :=
        if ps[0].id == id then g(ps[0])
        else match ps[0].children
          case Absent => [ps[0]]
          case Present(ks) => [ps[0].(children := Present(Rewrite(ks, id, g)))];
      head + Rewrite(ps[1..], id, g)
  }

  /** What the parent becomes in `addPage`: the new page appended to its
      children (an absent array counts as empty), and expanded. */
  function Expand(parent: Page, newPage: Page): Page
  {
    parent.(children := Present(Kids(parent) + [newPage]), isExpanded := Some(true))
  }

  /** `updateChildren` in `addPage`. */
  function AddChild(ps: seq<Page>, parentId: Id, newPage: Page): seq<Page>
  {
    Rewrite(ps, parentId, p => [Expand(p, newPage)])
  }

  /** `deleteFromPages` in `deletePage`. */
  function Delete(ps: seq<Page>, id: Id): seq<Page>
  {
    Rewrite(ps, id, p => [])
  }

  /** `updateTitle` in `renamePage`. */
  function Retitle(ps: seq<Page>, id: Id, newTitle: string): seq<Page>
  {
    Rewrite(ps, id, (p: Page) => [p.(title := newTitle)])
  }

  /** `!page.isExpanded`: an undefined flag reads as false, so it becomes true. */
  function Flip(p: Page): Page
  {
    p.(isExpanded := Some(p.isExpanded != Some(true)))
  }

  /** `toggle` in `toggleFolder`. */
  function Toggle(ps: seq<Page>, id: Id): seq<Page>
  {
    Rewrite(ps, id, p => [Flip(p)])
  }

  /** `updateContent` in `updatePageContent` and in `saveContent`. */
  function SetContent(ps: seq<Page>, id: Id, content: string): seq<Page>
  {
    Rewrite(ps, id, (p: Page) => [p.(content := Some(content))])
  }

  /** `insertDuplicate` in `duplicatePage`: the copy follows the original. */
  function InsertDuplicate(ps: seq<Page>, id: Id, copy: Page): seq<Page>
  {
    Rewrite(ps, id, p => [p, copy])
  }

  /** The traversal distributes over consecutive sibling lists. */
  lemma {:induction false} RewriteConcat(a: seq<Page>, b: seq<Page>, id: Id, g: Page -> seq<Page>)
    ensures Rewrite(a + b, id, g) == Rewrite(a, id, g) + Rewrite(b, id, g)
  {
    if a == [] {
      assert a + b == b;
    } else {
      assert (a + b)[0] == a[0];
      assert (a + b)[1..] == a[1..] + b;
      RewriteConcat(a[1..], b, id, g);
    }
  }

  /** An id that occurs nowhere leaves the forest unchanged. */
  lemma {:induction false} RewriteAbsent(ps: seq<Page>, id: Id, g: Page -> seq<Page>)
    requires id !in Ids(ps)
    ensures Rewrite(ps, id, g) == ps
  {
    if ps != [] {
      IdsOfFirst(ps);
      RewriteAbsent(ps[1..], id, g);
      match ps[0].children {
        case Absent =>
        case Present(ks) =>
          RewriteAbsent(ks, id, g);
          assert ps[0].(children := Present(ks)) == ps[0];
      }
      assert ps == [ps[0]] + ps[1..];
    }
  }

  /** How unique ids split over the first root, its subtree and the rest. */
  lemma UniqueParts(ps: seq<Page>)
    requires ps != [] && UniqueIds(ps)
    ensures UniqueIds(Kids(ps[0])) && UniqueIds(ps[1..])
    ensures ps[0].id !in Ids(Kids(ps[0])) && ps[0].id !in Ids(ps[1..])
    ensures forall x :: x in Ids(Kids(ps[0])) ==> x !in Ids(ps[1..])
  {
    IdsOfFirst(ps);
    Distinct3([ps[0].id], Ids(Kids(ps[0])), Ids(ps[1..]));
  }

  /** The central fact: with unique ids, the traversal replaces exactly the
      page `Find` returns, at its position, by `g` of it, and leaves every
      other page of the forest as it was. */
  lemma {:induction false} RewriteAt(ps: seq<Page>, id: Id, g: Page -> seq<Page>)
    requires UniqueIds(ps)
    requires Find(id, ps).Some?
    ensures Rewrite(ps, id, g) == Fill(Locate(id, ps), g(Find(id, ps).value))
  {
    var p, rest := ps[0], ps[1..];
    UniqueParts(ps);
    if p.id == id {
      RewriteAbsent(rest, id, g);
    } else {
      match p.children {
        case Absent =>
          RewriteAt(rest, id, g);
          ShiftFill(p, Locate(id, rest), g(Find(id, rest).value));
        case Present(ks) =>
          FindIsFirstInPreorder(id, ks);
          if Find(id, ks).Some? {
            RewriteAt(ks, id, g);
            RewriteAbsent(rest, id, g);
          } else {
            RewriteAbsent(ks, id, g);
            assert p.(children := Present(ks)) == p;
            RewriteAt(rest, id, g);
            ShiftFill(p, Locate(id, rest), g(Find(id, rest).value));
          }
      }
    }
  }

  /** Replacing a page by one with the same pre-order ids keeps the forest's
      ids, in order. */
  lemma SameIds(c: Context, n: Page, m: Page)
    requires Ids([m]) == Ids([n])
    ensures Ids(Fill(c, [m])) == Ids(Fill(c, [n]))
  {
    FillIds(c, [n]);
    FillIds(c, [m]);
  }

  /** `addPage` under a parent: an unknown parent id changes nothing;
      otherwise the parent, and only the parent, gains the new page as its
      last child and becomes expanded; there is one more node; and ids stay
      unique when the new id is fresh. */
  lemma AddChildEffect(ps: seq<Page>, parentId: Id, newPage: Page)
    requires UniqueIds(ps)
    requires Kids(newPage) == []
    requires newPage.id !in Ids(ps)
    ensures Find(parentId, ps).None? ==> AddChild(ps, parentId, newPage) == ps
    ensures Find(parentId, ps).Some? ==>
      var n := Find(parentId, ps).value;
      && AddChild(ps, parentId, newPage) == Fill(Locate(parentId, ps), [Expand(n, newPage)])
      && Kids(Expand(n, newPage)) == Kids(n) + [newPage]
      && Expand(n, newPage).isExpanded == Some(true)
      && Count(AddChild(ps, parentId, newPage)) == Count(ps) + 1
    ensures UniqueIds(AddChild(ps, parentId, newPage))
  {
    FindIsFirstInPreorder(parentId, ps);
    var g := p => [Expand(p, newPage)];
    if Find(parentId, ps).None? {
      RewriteAbsent(ps, parentId, g);
    } else {
      var n := Find(parentId, ps).value;
      var c := Locate(parentId, ps);
      var m := Expand(n, newPage);
      RewriteAt(ps, parentId, g);
      LocateFill(parentId, ps);
      IdsOfPage(n);
      IdsOfPage(m);
      IdsOfPage(newPage);
      IdsConcat(Kids(n), [newPage]);
      assert Ids([m]) == Ids([n]) + [newPage.id];
      FillFreshUnique(c, [n], [m], [newPage.id]);
      FillCount(c, [n]);
      FillCount(c, [m]);
    }
  }

  /** `deletePage`'s traversal removes every page carrying `id`, at any
      depth, together with its subtree. */
  lemma {:induction false} DeleteRemovesAll(ps: seq<Page>, id: Id)
    ensures id !in Ids(Delete(ps, id))
  {
    if ps != [] {
      var p, rest := ps[0], ps[1..];
      var g := (q: Page) => [];
      DeleteRemovesAll(rest, id);
      var head := if p.id == id then [] else match p.children
        case Absent => [p]
        case Present(ks) => [p.(children := Present(Rewrite(ks, id, g)))];
      assert Delete(ps, id) == head + Delete(rest, id);
      IdsConcat(head, Delete(rest, id));
      if p.id != id {
        match p.children {
          case Absent => IdsOfPage(p);
          case Present(ks) =>
            DeleteRemovesAll(ks, id);
            IdsOfPage(head[0]);
        }
      }
    }
  }

  /** `deletePage` with unique ids: an unknown id changes nothing; otherwise
      the position of the page is emptied, every other page keeps its place
      and fields, the ids that remain are those before and after the removed
      subtree in their old order, and the count drops by the subtree's size. */
  lemma DeleteEffect(ps: seq<Page>, id: Id)
    requires UniqueIds(ps)
    ensures Find(id, ps).None? ==> Delete(ps, id) == ps
    ensures Find(id, ps).Some? ==>
      var n := Find(id, ps).value;
      var c := Locate(id, ps);
      && Delete(ps, id) == Fill(c, [])
      && Ids(ps) == Before(c) + Ids([n]) + After(c)
      && Ids(Delete(ps, id)) == Before(c) + After(c)
      && Count(Delete(ps, id)) == Count(ps) - Size(n)
    ensures UniqueIds(Delete(ps, id))
  {
    FindIsFirstInPreorder(id, ps);
    var g := (q: Page) => [];
    if Find(id, ps).None? {
      RewriteAbsent(ps, id, g);
    } else {
      var n := Find(id, ps).value;
      var c := Locate(id, ps);
      RewriteAt(ps, id, g);
      LocateFill(id, ps);
      FillEmpty(c, [n]);
    }
  }

  /** `renamePage` with unique ids: exactly the found page's title changes;
      ids, shape, order and every other field stay as they were. */
  lemma RetitleEffect(ps: seq<Page>, id: Id, newTitle: string)
    requires UniqueIds(ps)
    ensures Find(id, ps).None? ==> Retitle(ps, id, newTitle) == ps
    ensures Find(id, ps).Some? ==>
      Retitle(ps, id, newTitle) == Fill(Locate(id, ps), [Find(id, ps).value.(title := newTitle)])
    ensures Ids(Retitle(ps, id, newTitle)) == Ids(ps)
  {
    FindIsFirstInPreorder(id, ps);
    var g := (p: Page) => [p.(title := newTitle)];
    if Find(id, ps).None? {
      RewriteAbsent(ps, id, g);
    } else {
      var n := Find(id, ps).value;
      RewriteAt(ps, id, g);
      LocateFill(id, ps);
      IdsOfPage(n);
      IdsOfPage(n.(title := newTitle));
      SameIds(Locate(id, ps), n, n.(title := newTitle));
    }
  }

  /** `toggleFolder` with unique ids: exactly the found page's `isExpanded`
      flips (an undefined flag becomes true); nothing else changes. No check
      is made that the page is a folder. */
  lemma ToggleEffect(ps: seq<Page>, id: Id)
    requires UniqueIds(ps)
    ensures Find(id, ps).None? ==> Toggle(ps, id) == ps
    ensures Find(id, ps).Some? ==>
      var n := Find(id, ps).value;
      && Toggle(ps, id) == Fill(Locate(id, ps), [Flip(n)])
      && Flip(n).isExpanded == Some(n.isExpanded != Some(true))
    ensures Ids(Toggle(ps, id)) == Ids(ps)
  {
    FindIsFirstInPreorder(id, ps);
    var g := p => [Flip(p)];
    if Find(id, ps).None? {
      RewriteAbsent(ps, id, g);
    } else {
      var n := Find(id, ps).value;
      RewriteAt(ps, id, g);
      LocateFill(id, ps);
      IdsOfPage(n);
      IdsOfPage(Flip(n));
      SameIds(Locate(id, ps), n, Flip(n));
    }
  }

  /** `updateContent` with unique ids: exactly the found page's content
      becomes `content` (whatever its kind); nothing else changes. */
  lemma SetContentEffect(ps: seq<Page>, id: Id, content: string)
    requires UniqueIds(ps)
    ensures Find(id, ps).None? ==> SetContent(ps, id, content) == ps
    ensures Find(id, ps).Some? ==>
      SetContent(ps, id, content) == Fill(Locate(id, ps), [Find(id, ps).value.(content := Some(content))])
    ensures Ids(SetContent(ps, id, content)) == Ids(ps)
  {
    FindIsFirstInPreorder(id, ps);
    var g := (p: Page) => [p.(content := Some(content))];
    if Find(id, ps).None? {
      RewriteAbsent(ps, id, g);
    } else {
      var n := Find(id, ps).value;
      RewriteAt(ps, id, g);
      LocateFill(id, ps);
      IdsOfPage(n);
      IdsOfPage(n.(content := Some(content)));
      SameIds(Locate(id, ps), n, n.(content := Some(content)));
    }
  }

  /** Writing back the content a page already has leaves the forest as it was:
      what a save stores is exactly what it read. */
  lemma SetContentSame(ps: seq<Page>, id: Id)
    requires UniqueIds(ps)
    requires Find(id, ps).Some? && Find(id, ps).value.content.Some?
    ensures SetContent(ps, id, Find(id, ps).value.content.value) == ps
  {
    var n := Find(id, ps).value;
    SetContentEffect(ps, id, n.content.value);
    assert n.(content := Some(n.content.value)) == n;
    LocateFill(id, ps);
  }

  /** The traversal on a single page. */
  lemma RewriteSingle(q: Page, id: Id, g: Page -> seq<Page>)
    ensures Rewrite([q], id, g) ==
      if q.id == id then g(q)
      else match q.children
        case Absent => [q]
        case Present(ks) => [q.(children := Present(Rewrite(ks, id, g)))]
  {
    assert [q][0] == q && [q][1..] == [];
  }

  /** Toggling the same id twice restores the forest, provided every page
      carrying that id has a defined `isExpanded` flag. */
  lemma {:induction false} ToggleTwice(ps: seq<Page>, id: Id)
    requires forall n :: n in Nodes(ps) && n.id == id ==> n.isExpanded.Some?
    ensures Toggle(Toggle(ps, id), id) == ps
  {
    if ps != [] {
      var p, rest := ps[0], ps[1..];
      var g := (q: Page) => [Flip(q)];
      NodesOfFirst(ps);
      assert ps == [p] + rest;
      RewriteConcat([p], rest, id, g);
      RewriteConcat(Toggle([p], id), Toggle(rest, id), id, g);
      ToggleTwicePage(p, id);
      ToggleTwice(rest, id);
    }
  }

  lemma {:induction false} ToggleTwicePage(p: Page, id: Id)
    requires forall n :: n in Nodes([p]) && n.id == id ==> n.isExpanded.Some?
    ensures Toggle(Toggle([p], id), id) == [p]
  {
    var g := (q: Page) => [Flip(q)];
    NodesOfPage(p);
    RewriteSingle(p, id, g);
    if p.id == id {
      RewriteSingle(Flip(p), id, g);
      var b := p.isExpanded.value;
      assert Flip(p).isExpanded == Some(!b);
      assert Flip(Flip(p)) == p;
    } else {
      match p.children {
        case Absent =>
          RewriteSingle(p, id, g);
        case Present(ks) =>
          var p' := p.(children := Present(Toggle(ks, id)));
          RewriteSingle(p', id, g);
          ToggleTwice(ks, id);
          assert p.(children := Present(ks)) == p;
      }
    }
  }

  /** Without a defined flag the round trip does not hold: undefined is
      toggled to true and then to false. */
  lemma ToggleTwiceFromUndefined(p: Page)
    requires p.isExpanded.None?
    ensures Toggle(Toggle([p], p.id), p.id) == [p.(isExpanded := Some(false))]
    ensures Toggle(Toggle([p], p.id), p.id) != [p]
  {
    var once := Toggle([p], p.id);
    assert [p][1..] == [];
    assert [p][0] == p;
    assert Rewrite([p][1..], p.id, (q: Page) => [Flip(q)]) == [];
    assert once == [Flip(p)];
    assert once[1..] == [];
    assert Toggle(once, p.id) == [Flip(Flip(p))];
  }

  /** `insertDuplicate` with unique ids: the copy is placed immediately after
      the original in the same sibling list; the original and everything else
      are unchanged; the count grows by the copy's size; ids stay unique when
      the copy's ids are fresh. */
  lemma InsertDuplicateEffect(ps: seq<Page>, id: Id, copy: Page)
    requires UniqueIds(ps)
    requires Find(id, ps).Some?
    requires Distinct(Ids([copy]))
    requires forall x :: x in Ids([copy]) ==> x !in Ids(ps)
    ensures InsertDuplicate(ps, id, copy) == Fill(Locate(id, ps), [Find(id, ps).value, copy])
    ensures Count(InsertDuplicate(ps, id, copy)) == Count(ps) + Size(copy)
    ensures UniqueIds(InsertDuplicate(ps, id, copy))
  {
    var n := Find(id, ps).value;
    var c := Locate(id, ps);
    RewriteAt(ps, id, p => [p, copy]);
    LocateFill(id, ps);
    IdsConcat([n], [copy]);
    FillFreshUnique(c, [n], [n, copy], Ids([copy]));
    FillCount(c, [n]);
    FillCount(c, [n, copy]);
  }
}
