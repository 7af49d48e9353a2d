/** `findPage`: depth-first lookup of a page by id. */
module Lookup {
  import opened PageModel

  /** The first node, in pre-order, whose id is `id`; `None` when there is none.
      Mirrors the recursion of the source: a root, then (when it has a
      children array) its subtree, then the later roots. */
  function Find(id: Id, ps: seq<Page>): (r: Option<Page>)
    ensures r.Some? ==> r.value.id == id
  {
    if ps == [] then None
    else if ps[0].id == id then Some(ps[0])
    else match ps[0].children
      case Absent => Find(id, ps[1..])
      case Present(ks) =>
        var found := Find(id, ks);
        if found.Some? then found else Find(id, ps[1..])
  }

  /** The index of the first node in `ns` with id `id`, or `|ns|` if none has. */
  function FirstIndex(ns: seq<Page>, id: Id): (k: nat)
    ensures k <= |ns|
    ensures forall j :: 0 <= j < k ==> ns[j].id != id
    ensures k < |ns| ==> ns[k].id == id
  {
    if ns == [] then 0
    else if ns[0].id == id then 0
    else 1 + FirstIndex(ns[1..], id)
  }

  lemma FirstIndexIs(ns: seq<Page>, id: Id, k: nat)
    requires k <= |ns|
    requires forall j :: 0 <= j < k ==> ns[j].id != id
    requires k < |ns| ==> ns[k].id == id
    ensures FirstIndex(ns, id) == k
  {
  }

  /** The pre-order first match, or `None`. */
  function FirstMatch(ns: seq<Page>, id: Id): Option<Page>
  {
    var k := FirstIndex(ns, id);
    if k < |ns| then Some(ns[k]) else None
  }

  /** In a concatenation, the first match is in the first part if there is one
      there, and otherwise the first match of the second part. */
  lemma FirstMatchConcat(a: seq<Page>, b: seq<Page>, id: Id)
    ensures FirstMatch(a + b, id) ==
      if FirstMatch(a, id).Some? then FirstMatch(a, id) else FirstMatch(b, id)
  {
    var ka := FirstIndex(a, id);
    if ka < |a| {
      FirstIndexIs(a + b, id, ka);
    } else {
      var kb := FirstIndex(b, id);
      FirstIndexIs(a + b, id, |a| + kb);
    }
  }

  /** The first match of a flat list exists exactly when the id is among
      the list's ids, and carries that id. */
  lemma FirstMatchIds(ns: seq<Page>, id: Id)
    ensures FirstMatch(ns, id).None? <==> id !in IdsOf(ns)
    ensures FirstMatch(ns, id).Some? ==> FirstMatch(ns, id).value.id == id
  {
    var k := FirstIndex(ns, id);
    if id in IdsOf(ns) {
      var i :| 0 <= i < |ns| && IdsOf(ns)[i] == id;
      assert ns[i].id == id;
    }
    if k < |ns| {
      assert IdsOf(ns)[k] == id;
    }
  }

  lemma {:induction false} FindPreorder(id: Id, ps: seq<Page>)
    ensures Find(id, ps) == FirstMatch(Nodes(ps), id)
  {
    if ps != [] {
      var p, rest := ps[0], ps[1..];
      NodesOfFirst(ps);
      NodesOfPage(p);
      var ns := Nodes(ps);
      if p.id == id {
        FirstIndexIs(ns, id, 0);
      } else {
        FindPreorder(id, rest);
        match p.children {
          case Present(ks) => FindPreorder(id, ks);
          case Absent =>
        }
        FirstMatchConcat([p] + Nodes(Kids(p)), Nodes(rest), id);
        FirstMatchConcat([p], Nodes(Kids(p)), id);
        FirstIndexIs([p], id, 1);
      }
    }
  }

  /** `Find` returns the first node in pre-order whose id matches, and `None`
      exactly when no node of the forest has that id. */
  lemma FindIsFirstInPreorder(id: Id, ps: seq<Page>)
    ensures Find(id, ps) == FirstMatch(Nodes(ps), id)
    ensures Find(id, ps).None? <==> id !in Ids(ps)
    ensures Find(id, ps).Some? ==> Find(id, ps).value.id == id
  {
    FindPreorder(id, ps);
    FirstMatchIds(Nodes(ps), id);
    IdsOfNodes(ps);
  }

  /** With unique ids, the page `Find` returns is the only node carrying `id`. */
  lemma FindUnique(id: Id, ps: seq<Page>, k: nat)
    requires UniqueIds(ps)
    requires k < |Nodes(ps)| && Nodes(ps)[k].id == id
    ensures Find(id, ps) == Some(Nodes(ps)[k])
  {
    FindIsFirstInPreorder(id, ps);
    IdsOfNodes(ps);
    var f := FirstIndex(Nodes(ps), id);
    assert Ids(ps)[f] == Ids(ps)[k];
  }

  /** The source's `findPage`: a loop over the roots that returns early on a
      match, descending recursively into each root's children array. */
  method FindPage(id: Id, pages: seq<Page>) returns (r: Option<Page>)
    ensures r == Find(id, pages)
  {
    var i := 0;
    while i < |pages|
      invariant 0 <= i <= |pages|
      invariant Find(id, pages) == Find(id, pages[i..])
    {
      var page := pages[i];
      assert pages[i..][0] == page && pages[i..][1..] == pages[i + 1..];
      if page.id == id {
        return Some(page);
      }
      match page.children {
        case Present(ks) =>
          var found := FindPage(id, ks);
          if found.Some? {
            return found;
          }
        case Absent =>
      }
      i := i + 1;
    }
    return None;
  }
}
