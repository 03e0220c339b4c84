/**
 Vertices with named edges. Each edge name has a tree of neighbours, taken here as the finite map
 that the AVL tree has been proved to be. Panics of the code are preconditions.
 */
module Linker {
  import opened Wrappers
  import opened Order
  import opened Resources

  /** The names under which vertices keep their edges: "routes", "services" and so on. */
  datatype EdgeName =
    ToNamespaces | ToServices | ToRoutes | ToModules | ToDomains | ToCollections | ToSecrets | ToNamespace | ToService

  type Edges = map<EdgeName, map<string, Link>>

  /** A vertex's edges before anything is linked. */
  function Unconnected(names: set<EdgeName>): Edges { map n | n in names :: map[] }

  /** The key itself, or the one that follows it in the order of the tree. */
  predicate OwnOrNext(e: map<string, Link>, key: string, k: string) {
    && key in e && k in e
    && (k == key || (StringLt(key, k) && forall j :: j in e && StringLt(key, j) ==> !StringLt(j, k)))
  }

  class Link {
    /** Which resource the vertex was made for. */
    ghost const id: Id
    var item: Spec
    var edges: Edges

    constructor (ghost id: Id, item: Spec, names: set<EdgeName>)
      ensures this.id == id && this.item == item && edges == Unconnected(names)
    {
      this.id, this.item := id, item;
      edges := Unconnected(names);
    }

    /** The only neighbour under the name, if any. The code panics on more than one. */
    method Get(name: EdgeName) returns (r: Option<Link>)
      requires name in edges ==> |edges[name]| <= 1
      ensures r.None? <==> name !in edges || edges[name] == map[]
      ensures r.Some? ==> exists k :: edges[name] == map[k := r.value]
    {
      if name !in edges || edges[name] == map[] {
        return None;
      }
      var k :| k in edges[name];
      assert edges[name].Keys == {k} by { OnlyOne(edges[name].Keys, k); }
      assert edges[name] == map[k := edges[name][k]];
      r := Some(edges[name][k]);
    }

    method Len(name: EdgeName) returns (n: nat)
      ensures n == if name in edges then |edges[name]| else 0
    {
      n := if name in edges then |edges[name]| else 0;
    }

    /** Adds or replaces the neighbour under the key. The code panics on an unknown edge name. */
    method LinkOneMany(name: EdgeName, key: string, vtx: Link)
      requires name in edges
      modifies this`edges
      ensures edges == old(edges)[name := old(edges)[name][key := vtx]]
    {
      edges := edges[name := edges[name][key := vtx]];
    }

    /** Takes the neighbour away by Pop, which hands back its vertex or, from a node with two children, the next one. */
    method UnlinkOneMany(name: EdgeName, key: string) returns (r: Option<Link>)
      requires name in edges
      modifies this`edges
      ensures edges == old(edges)[name := old(edges)[name] - {key}]
      ensures r.Some? <==> key in old(edges)[name]
      ensures r.Some? ==> exists k :: OwnOrNext(old(edges)[name], key, k) && r.value == old(edges)[name][k]
    {
      r := None;
      if key in edges[name] {
        var k :| k in edges[name] && OwnOrNext(edges[name], key, k);
        r := Some(edges[name][k]);
      }
      edges := edges[name := edges[name] - {key}];
    }

    /** As LinkOneMany, but the code panics if the name then has more than one neighbour. */
    method LinkOneOne(name: EdgeName, key: string, vtx: Link)
      requires name in edges && edges[name].Keys <= {key}
      modifies this`edges
      ensures edges == old(edges)[name := map[key := vtx]]
    {
      assert edges[name][key := vtx] == map[key := vtx];
      edges := edges[name := edges[name][key := vtx]];
    }

    method UnlinkOneOneByKey(name: EdgeName, key: string) returns (r: Option<Link>)
      requires name in edges
      modifies this`edges
      ensures edges == old(edges)[name := old(edges)[name] - {key}]
      ensures r.Some? <==> key in old(edges)[name]
      ensures r.Some? ==> exists k :: OwnOrNext(old(edges)[name], key, k) && r.value == old(edges)[name][k]
      ensures old(edges)[name].Keys == {key} ==> r == Some(old(edges)[name][key])
    {
      r := UnlinkOneMany(name, key);
    }

    /** Empties the edge and hands back the vertex at the root of its tree. */
    method UnlinkOneOne(name: EdgeName) returns (r: Option<Link>)
      requires name in edges
      modifies this`edges
      ensures edges == old(edges)[name := map[]]
      ensures r.Some? <==> old(edges)[name] != map[]
      ensures r.Some? ==> exists k :: k in old(edges)[name] && r.value == old(edges)[name][k]
    {
      if edges[name] != map[] {
        var k :| k in edges[name];
        r := Some(edges[name][k]);
        edges := edges[name := map[]];
      } else {
        r := None;
        assert edges == edges[name := map[]];
      }
    }
  }

  lemma OnlyOne(s: set<string>, k: string)
    requires |s| <= 1 && k in s
    ensures s == {k}
  {
    assert |s - {k}| == |s| - 1;
    assert s == {k} + (s - {k});
  }
}
