/** A position in the forest: the sibling list that holds a node, and the chain
    of ancestors above it. Filling the hole with a list of pages rebuilds the
    whole forest around them, so "the forest with the node at this position
    replaced by xs, and nothing else changed" is `Fill(c, xs)`. */
module Locus {
  import opened PageModel
  import opened Lookup

  /** `Here(l, r)`: the hole sits between siblings `l` and `r` of the current
      list. `Under(l, p, r, c)`: the hole is inside the children of `p`, at
      position `c` of that list, and `p` sits between siblings `l` and `r`. */
  datatype Context =
    | Here(left: seq<Page>, right: seq<Page>)
    | Under(left: seq<Page>, parent: Page, right: seq<Page>, inner: Context)

  function Fill(c: Context, xs: seq<Page>): seq<Page>
  {
    match c
    case Here(l, r) => l + xs + r
    case Under(l, p, r, inner) => l + [p.(children := Present(Fill(inner, xs)))] + r
  }

  /** The ids placed before the hole, in pre-order: left siblings with their
      subtrees, and every ancestor. */
  function Before(c: Context): seq<Id>
  {
    match c
    case Here(l, _) => Ids(l)
    case Under(l, p, _, inner) => Ids(l) + [p.id] + Before(inner)
  }

  /** The ids placed after the hole, in pre-order. */
  function After(c: Context): seq<Id>
  {
    match c
    case Here(_, r) => Ids(r)
    case Under(_, _, r, inner) => After(inner) + Ids(r)
  }

  /** The position of the node `Find` returns. */
  function Locate(id: Id, ps: seq<Page>): Context
    requires Find(id, ps).Some?
  {
    if ps[0].id == id then Here([], ps[1..])
    else match ps[0].children
      case Absent => Shift(ps[0], Locate(id, ps[1..]))
      case Present(ks) =>
        if Find(id, ks).Some? then Under([], ps[0], ps[1..], Locate(id, ks))
        else Shift(ps[0], Locate(id, ps[1..]))
  }

  /** The same position with one more left sibling at the outermost level. */
  function Shift(p: Page, c: Context): Context
  {
    c.(left := [p] + c.left)
  }

  /** Filling the located position with the found node gives back the forest. */
  lemma {:induction false} LocateFill(id: Id, ps: seq<Page>)
    requires Find(id, ps).Some?
    ensures Fill(Locate(id, ps), [Find(id, ps).value]) == ps
  {
    var p, rest := ps[0], ps[1..];
    if p.id == id {
      assert [p] + rest == ps;
    } else {
      match p.children {
        case Absent =>
          LocateFill(id, rest);
          ShiftFill(p, Locate(id, rest), [Find(id, rest).value]);
        case Present(ks) =>
          if Find(id, ks).Some? {
            LocateFill(id, ks);
            assert p.(children := Present(ks)) == p;
          } else {
            LocateFill(id, rest);
            ShiftFill(p, Locate(id, rest), [Find(id, rest).value]);
          }
      }
      assert ps == [p] + rest;
    }
  }

  lemma ShiftFill(p: Page, c: Context, xs: seq<Page>)
    ensures Fill(Shift(p, c), xs) == [p] + Fill(c, xs)
  {
  }

  /** The pre-order ids of a filled position: those before it, those of the
      pages placed there, those after it. */
  lemma {:induction false} FillIds(c: Context, xs: seq<Page>)
    ensures Ids(Fill(c, xs)) == Before(c) + Ids(xs) + After(c)
  {
    match c {
      case Here(l, r) =>
        IdsConcat(l + xs, r);
        IdsConcat(l, xs);
      case Under(l, p, r, inner) =>
        FillIds(inner, xs);
        SiblingsIds(l, p.(children := Present(Fill(inner, xs))), r);
    }
  }

  /** The ids of a page between two sibling lists. */
  lemma SiblingsIds(l: seq<Page>, p: Page, r: seq<Page>)
    ensures Ids(l + [p] + r) == Ids(l) + [p.id] + Ids(Kids(p)) + Ids(r)
  {
    IdsOfPage(p);
    IdsConcat(l + [p], r);
    IdsConcat(l, [p]);
  }

  /** Replacing the pages at a position by others whose ids are the old ones
      followed by `added` keeps the ids unique, provided `added` is itself
      duplicate-free and shares no id with the forest. */
  lemma FillFreshUnique(c: Context, xs: seq<Page>, ys: seq<Page>, added: seq<Id>)
    requires UniqueIds(Fill(c, xs))
    requires Ids(ys) == Ids(xs) + added
    requires Distinct(added)
    requires forall x :: x in added ==> x !in Ids(Fill(c, xs))
    ensures UniqueIds(Fill(c, ys))
  {
    FillIds(c, xs);
    FillIds(c, ys);
    var b, a := Before(c), After(c);
    Distinct3(b, Ids(xs), a);
    DistinctConcat(Ids(xs), added);
    Distinct3(b, Ids(xs) + added, a);
  }

  /** Emptying a position drops exactly the ids of what was there, keeps the
      others in order, and keeps them unique. */
  lemma FillEmpty(c: Context, xs: seq<Page>)
    ensures Ids(Fill(c, xs)) == Before(c) + Ids(xs) + After(c)
    ensures Ids(Fill(c, [])) == Before(c) + After(c)
    ensures Count(Fill(c, [])) == Count(Fill(c, xs)) - Count(xs)
    ensures UniqueIds(Fill(c, xs)) ==> UniqueIds(Fill(c, []))
  {
    FillIds(c, xs);
    FillIds(c, []);
    assert Ids([]) == [];
    assert Before(c) + Ids([]) + After(c) == Before(c) + After(c);
    if UniqueIds(Fill(c, xs)) {
      Distinct3(Before(c), Ids(xs), After(c));
      DistinctConcat(Before(c), After(c));
    }
  }

  /** Node counts of a filled position. */
  lemma FillCount(c: Context, xs: seq<Page>)
    ensures Count(Fill(c, xs)) == |Before(c)| + Count(xs) + |After(c)|
  {
    FillIds(c, xs);
  }
}
