/** `duplicateWithNewId`: a deep copy of a subtree with a new id on every
    node and " (Copy)" appended to every title. The source draws each id
    while building the node, before mapping over its children, so the ids of
    the copy are taken from a supply of fresh ids in pre-order. */
module Duplication {
  import opened PageModel

  const CopySuffix := " (Copy)"

  /** `page.children?.map(duplicateWithNewId)`, consuming `ids` in pre-order:
      each page takes the next id, then its subtree takes as many as it has
      nodes. An absent children array stays absent. */
  function DuplicateAll(ps: seq<Page>, ids: seq<Id>): seq<Page>
    requires Count(ps) <= |ids|
  {
    if ps == [] then []
    else
      IdsOfFirst(ps);
      IdsOfPage(ps[0]);
      var kids := match ps[0].children
        case Absent => Absent
        case Present(ks) => Present(DuplicateAll(ks, ids[1..]));
      [ps[0].(id := ids[0], title := ps[0].title + CopySuffix, children := kids)]
        + DuplicateAll(ps[1..], ids[Size(ps[0])..])
  }

  /** The copy of one page and its subtree. */
  function DuplicateWithNewIds(p: Page, ids: seq<Id>): Page
    requires Size(p) <= |ids|
  {
    DuplicateAll([p], ids)[0]
  }

  /** A page with id and title blanked, recursively: what a copy must share
      with its original (kind, children shape, expansion flag, content). */
  function Skeleton(ps: seq<Page>): seq<Page>
  {
    if ps == [] then []
    else
      var kids := match ps[0].children
        case Absent => Absent
        case Present(ks) => Present(Skeleton(ks));
      [ps[0].(id := "", title := "", children := kids)] + Skeleton(ps[1..])
  }

  /** Every title with the copy suffix appended. */
  function Suffixed(ts: seq<string>): seq<string>
  {
    seq(|ts|, k requires 0 <= k < |ts| => ts[k] + CopySuffix)
  }

  lemma {:induction false} DuplicateAllFirst(ps: seq<Page>, ids: seq<Id>)
    requires ps != [] && Count(ps) <= |ids|
    ensures Size(ps[0]) <= |ids| && Count(ps[1..]) <= |ids| - Size(ps[0])
    ensures DuplicateAll(ps, ids) ==
      [DuplicateWithNewIds(ps[0], ids)] + DuplicateAll(ps[1..], ids[Size(ps[0])..])
  {
    IdsOfFirst(ps);
    IdsOfPage(ps[0]);
    assert [ps[0]][1..] == [];
    IdsOfFirst([ps[0]]);
    assert Count([ps[0]][1..]) == 0;
  }

  /** The copy's ids, in pre-order, are the first ids of the supply: a
      fresh id at every level and as many nodes as the original. */
  lemma {:induction false} DuplicateIds(ps: seq<Page>, ids: seq<Id>)
    requires Count(ps) <= |ids|
    ensures Ids(DuplicateAll(ps, ids)) == ids[..Count(ps)]
    ensures Count(DuplicateAll(ps, ids)) == Count(ps)
  {
    if ps != [] {
      var p, rest := ps[0], ps[1..];
      var d := DuplicateAll(ps, ids);
      DuplicateHead(ps, ids);
      DuplicateIds(rest, ids[Size(p)..]);
      match p.children {
        case Absent => assert Kids(p) == [];
        case Present(ks) => DuplicateIds(ks, ids[1..]);
      }
      var a, b := Count(Kids(p)), Count(rest);
      IdsOfFirst(ps);
      IdsOfFirst(d);
      assert Ids(Kids(d[0])) == ids[1..][..a];
      assert Ids(d[1..]) == ids[1 + a..][..b];
      SupplySplit(ids, a, b);
    }
  }

  /** The ids a list takes: one for its first page, then its children's, then
      the later siblings'. */
  lemma SupplySplit(ids: seq<Id>, a: nat, b: nat)
    requires 1 + a + b <= |ids|
    ensures ids[..1 + a + b] == [ids[0]] + ids[1..][..a] + ids[1 + a..][..b]
  {
  }

  /** The copy has the original's shape, kinds, expansion flags and contents. */
  lemma {:induction false} DuplicateSkeleton(ps: seq<Page>, ids: seq<Id>)
    requires Count(ps) <= |ids|
    ensures Skeleton(DuplicateAll(ps, ids)) == Skeleton(ps)
  {
    if ps != [] {
      var p, rest := ps[0], ps[1..];
      DuplicateHead(ps, ids);
      DuplicateSkeleton(rest, ids[Size(p)..]);
      match p.children {
        case Absent =>
        case Present(ks) => DuplicateSkeleton(ks, ids[1..]);
      }
    }
  }

  lemma SuffixedConcat(a: seq<string>, b: seq<string>)
    ensures Suffixed(a + b) == Suffixed(a) + Suffixed(b)
  {
  }

  /** The first page of a copied list: the supply's first id, the suffixed
      title, the copy of its children (from the next ids), and then the copy
      of the later siblings (from the ids after its subtree). */
  lemma DuplicateHead(ps: seq<Page>, ids: seq<Id>)
    requires ps != [] && Count(ps) <= |ids|
    ensures Count(Kids(ps[0])) <= |ids| - 1
    ensures Size(ps[0]) <= |ids| && Count(ps[1..]) <= |ids| - Size(ps[0])
    ensures DuplicateAll(ps, ids) != []
    ensures DuplicateAll(ps, ids)[0].id == ids[0]
    ensures DuplicateAll(ps, ids)[0].title == ps[0].title + CopySuffix
    ensures Kids(DuplicateAll(ps, ids)[0]) == DuplicateAll(Kids(ps[0]), ids[1..])
    ensures DuplicateAll(ps, ids)[1..] == DuplicateAll(ps[1..], ids[Size(ps[0])..])
  {
    IdsOfFirst(ps);
    IdsOfPage(ps[0]);
  }

  /** Every title of the copy, the root's and every descendant's, is the
      original's title, in the same pre-order position, followed by " (Copy)". */
  lemma {:induction false} DuplicateTitles(ps: seq<Page>, ids: seq<Id>)
    requires Count(ps) <= |ids|
    ensures Titles(DuplicateAll(ps, ids)) == Suffixed(Titles(ps))
  {
    if ps != [] {
      var p, rest := ps[0], ps[1..];
      var d := DuplicateAll(ps, ids);
      DuplicateHead(ps, ids);
      DuplicateTitles(rest, ids[Size(p)..]);
      match p.children {
        case Absent => assert Kids(p) == [];
        case Present(ks) => DuplicateTitles(ks, ids[1..]);
      }
      TitlesOfFirst(ps);
      TitlesOfFirst(d);
      SuffixedFirst(p.title, Titles(Kids(p)), Titles(rest));
    }
  }

  lemma SuffixedFirst(t: string, a: seq<string>, b: seq<string>)
    ensures Suffixed([t] + a + b) == [t + CopySuffix] + Suffixed(a) + Suffixed(b)
  {
    SuffixedConcat([t] + a, b);
    SuffixedConcat([t], a);
  }

  /** The copy of a single page: a new root id (the supply's first), fresh ids
      below it in pre-order, the same shape and contents, and every title
      suffixed. */
  lemma DuplicateWithNewIdsEffect(p: Page, ids: seq<Id>)
    requires Size(p) <= |ids|
    ensures Ids([DuplicateWithNewIds(p, ids)]) == ids[..Size(p)]
    ensures Size(DuplicateWithNewIds(p, ids)) == Size(p)
    ensures DuplicateWithNewIds(p, ids).id == ids[0]
    ensures Skeleton([DuplicateWithNewIds(p, ids)]) == Skeleton([p])
    ensures Titles([DuplicateWithNewIds(p, ids)]) == Suffixed(Titles([p]))
  {
    var d := DuplicateAll([p], ids);
    DuplicateAllFirst([p], ids);
    assert [p][1..] == [];
    assert d == [DuplicateWithNewIds(p, ids)];
    DuplicateIds([p], ids);
    DuplicateSkeleton([p], ids);
    DuplicateTitles([p], ids);
    IdsOfPage(d[0]);
  }
}
