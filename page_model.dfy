/** The page forest of the wiki: the `Page` record, its optional fields, and the
    pre-order views of a forest (every node, every id, every title) in terms of
    which the operations are specified. */
module PageModel {

  datatype Option<T> = None | Some(value: T)

  /** Page ids are opaque strings (the store never parses them). */
  type Id = string

  datatype Kind = Folder | Document

  /** The optional `children` array of a page: `undefined` or an ordered list. */
  datatype Children = Absent | Present(pages: seq<Page>)

  /** One node of the forest; `children`, `isExpanded` and `content` are the
      optional properties of the source's record. */
  datatype Page = Page(
    id: Id,
    title: string,
    kind: Kind,
    children: Children,
    isExpanded: Option<bool>,
    content: Option<string>)

  /** The children of `p`, reading an absent array as the empty list
      (the source's `page.children ?? []`). */
  function Kids(p: Page): seq<Page>
  {
    match p.children
    case Absent => []
    case Present(ks) => ks
  }

  /** Every node of the forest in pre-order depth-first order: a page, then
      its descendants, then its later siblings. */
  function Nodes(ps: seq<Page>): seq<Page>
  {
    if ps == [] then []
    else match ps[0].children
      case Absent => [ps[0]] + Nodes(ps[1..])
      case Present(ks) => [ps[0]] + Nodes(ks) + Nodes(ps[1..])
  }

  /** Every id of the forest, in pre-order. */
  function Ids(ps: seq<Page>): seq<Id>
  {
    if ps == [] then []
    else match ps[0].children
      case Absent => [ps[0].id] + Ids(ps[1..])
      case Present(ks) => [ps[0].id] + Ids(ks) + Ids(ps[1..])
  }

  /** Every title of the forest, in pre-order. */
  function Titles(ps: seq<Page>): seq<string>
  {
    if ps == [] then []
    else match ps[0].children
      case Absent => [ps[0].title] + Titles(ps[1..])
      case Present(ks) => [ps[0].title] + Titles(ks) + Titles(ps[1..])
  }

  /** The ids of a list of nodes, position by position. */
  function IdsOf(ns: seq<Page>): seq<Id>
  {
    seq(|ns|, k requires 0 <= k < |ns| => ns[k].id)
  }

  /** The number of nodes in the forest. */
  function Count(ps: seq<Page>): nat
  {
    |Ids(ps)|
  }

  /** The number of nodes in the subtree rooted at `p`, `p` included. */
  function Size(p: Page): nat
  {
    Count([p])
  }

  ghost predicate Distinct<T>(s: seq<T>)
  {
    forall i, j :: 0 <= i < j < |s| ==> s[i] != s[j]
  }

  /** The store's invariant: no id occurs twice anywhere in the forest. */
  ghost predicate UniqueIds(ps: seq<Page>)
  {
    Distinct(Ids(ps))
  }

  /** The pre-order of a single page: the page, then its descendants. */
  lemma NodesOfPage(p: Page)
    ensures Nodes([p]) == [p] + Nodes(Kids(p))
  {
    assert [p][1..] == [];
  }

  /** The pre-order of a forest splits at its first root. */
  lemma NodesOfFirst(ps: seq<Page>)
    requires ps != []
    ensures Nodes(ps) == Nodes([ps[0]]) + Nodes(ps[1..])
  {
    NodesOfPage(ps[0]);
  }

  /** The pre-order of two consecutive sibling lists is the concatenation of
      their pre-orders. */
  lemma {:induction false} NodesConcat(a: seq<Page>, b: seq<Page>)
    ensures Nodes(a + b) == Nodes(a) + Nodes(b)
  {
    if a == [] {
      assert a + b == b;
    } else {
      assert (a + b)[0] == a[0];
      assert (a + b)[1..] == a[1..] + b;
      NodesConcat(a[1..], b);
      NodesOfFirst(a);
      NodesOfFirst(a + b);
    }
  }

  lemma IdsOfConcat(a: seq<Page>, b: seq<Page>)
    ensures IdsOf(a + b) == IdsOf(a) + IdsOf(b)
  {
  }

  /** The ids of a forest: its first root's, that root's descendants', then
      the later roots'. */
  lemma IdsOfFirst(ps: seq<Page>)
    requires ps != []
    ensures Ids(ps) == [ps[0].id] + Ids(Kids(ps[0])) + Ids(ps[1..])
    ensures Ids([ps[0]]) == [ps[0].id] + Ids(Kids(ps[0]))
    ensures Ids(ps) == Ids([ps[0]]) + Ids(ps[1..])
    ensures Count(ps) == Size(ps[0]) + Count(ps[1..])
    ensures Size(ps[0]) == 1 + Count(Kids(ps[0]))
  {
    assert [ps[0]][0] == ps[0] && [ps[0]][1..] == [];
  }

  /** The ids of a single page: its own id, then those of its descendants. */
  lemma IdsOfPage(p: Page)
    ensures Ids([p]) == [p.id] + Ids(Kids(p))
    ensures Size(p) == 1 + Count(Kids(p))
  {
    IdsOfFirst([p]);
  }

  /** Ids (and hence node counts) of consecutive sibling lists add up. */
  lemma {:induction false} IdsConcat(a: seq<Page>, b: seq<Page>)
    ensures Ids(a + b) == Ids(a) + Ids(b)
    ensures Count(a + b) == Count(a) + Count(b)
  {
    if a == [] {
      assert a + b == b;
    } else {
      assert (a + b)[0] == a[0];
      assert (a + b)[1..] == a[1..] + b;
      IdsConcat(a[1..], b);
      IdsOfFirst(a);
      IdsOfFirst(a + b);
    }
  }

  /** The pre-order ids are the ids of the pre-order nodes. */
  lemma {:induction false} IdsOfNodes(ps: seq<Page>)
    ensures Ids(ps) == IdsOf(Nodes(ps))
  {
    if ps != [] {
      NodesOfFirst(ps);
      NodesOfPage(ps[0]);
      IdsOfFirst(ps);
      match ps[0].children {
        case Absent =>
        case Present(ks) => IdsOfNodes(ks);
      }
      IdsOfNodes(ps[1..]);
      IdsOfConcat([ps[0]] + Nodes(Kids(ps[0])), Nodes(ps[1..]));
      IdsOfConcat([ps[0]], Nodes(Kids(ps[0])));
    }
  }

  /** The titles of a forest: its first root's, that root's descendants',
      then the later roots'. */
  lemma TitlesOfFirst(ps: seq<Page>)
    requires ps != []
    ensures Titles(ps) == [ps[0].title] + Titles(Kids(ps[0])) + Titles(ps[1..])
  {
  }

  /** A sequence of two parts is duplicate-free exactly when each part is and
      no element occurs in two parts. */
  lemma DistinctConcat<T>(a: seq<T>, b: seq<T>)
    ensures Distinct(a + b) <==>
      Distinct(a) && Distinct(b) && forall x :: x in a ==> x !in b
  {
    var ab := a + b;
    if Distinct(ab) {
      forall i, j | 0 <= i < j < |a| ensures a[i] != a[j] {
        assert a[i] == ab[i] && a[j] == ab[j];
      }
      forall i, j | 0 <= i < j < |b| ensures b[i] != b[j] {
        assert b[i] == ab[|a| + i] && b[j] == ab[|a| + j];
      }
      forall i, j | 0 <= i < |a| && 0 <= j < |b| ensures a[i] != b[j] {
        assert a[i] == ab[i] && b[j] == ab[|a| + j];
      }
    }
    if Distinct(a) && Distinct(b) && forall x :: x in a ==> x !in b {
      forall i, j | 0 <= i < j < |ab| ensures ab[i] != ab[j] {
        if j < |a| {
        } else if i >= |a| {
          assert ab[i] == b[i - |a|] && ab[j] == b[j - |a|];
        } else {
          assert ab[i] in a && ab[j] == b[j - |a|];
        }
      }
    }
  }

  lemma Distinct3<T>(a: seq<T>, b: seq<T>, c: seq<T>)
    ensures Distinct(a + b + c) <==>
      Distinct(a) && Distinct(b) && Distinct(c) &&
      (forall x :: x in a ==> x !in b && x !in c) &&
      (forall x :: x in b ==> x !in c)
  {
    DistinctConcat(a, b);
    DistinctConcat(a + b, c);
  }
}
