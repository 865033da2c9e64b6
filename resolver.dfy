/** The component registry `COMPONENT_REGISTRY` of the parser module: a mutable table from
    component identifiers to renderers, with `getComponent`, `registerComponent` and
    `getRegisteredComponents`. */
module Resolver {
  import opened Wrappers

  /** A stand-in for a React component: it is identified by the name it was bundled under.
      A component is a function, so it is always truthy. */
  datatype Renderer = Renderer(name: string)

  /** The identifiers bundled with the parser module, in the order its table lists them. */
  const BundledUids: seq<string> := ["NBAGameScore", "NewsArticlePreview"]

  class ComponentRegistry {
    /** The table's own properties. */
    var components: map<string, Renderer>
    /** Its keys in insertion order, which is the order `Object.keys` reports. */
    var order: seq<string>

    /** Every key is recorded once, and only keys of the table are recorded. */
    ghost predicate Valid()
      reads this
    {
      && (forall k :: k in components <==> k in order)
      && (forall i, j :: 0 <= i < j < |order| ==> order[i] != order[j])
    }

    /** The table as the parser module declares it: the two bundled components. */
    constructor()
      ensures Valid()
      ensures order == BundledUids
      ensures components == map[
        "NBAGameScore" := Renderer("NBAGameScore"),
        "NewsArticlePreview" := Renderer("NewsArticlePreview")]
    {
      components := map[
        "NBAGameScore" := Renderer("NBAGameScore"),
        "NewsArticlePreview" := Renderer("NewsArticlePreview")];
      order := BundledUids;
    }

    /** `getComponent(uid)`: the registered renderer, or `null` (None) for an identifier
        the table does not hold. */
    function Get(uid: string): (r: Option<Renderer>)
      reads this
      ensures r.Some? <==> uid in components
      ensures r.Some? ==> r.value == components[uid]
    {
      if uid in components then Some(components[uid]) else None
    }

    /** `registerComponent(uid, component)`: the identifier now resolves to the new
        renderer, every other identifier resolves as before, and a new identifier is
        listed after the existing ones while a replaced one keeps its place. */
    method Register(uid: string, component: Renderer)
      requires Valid()
      modifies this
      ensures Valid()
      ensures components == old(components)[uid := component]
      ensures order == if uid in old(components) then old(order) else old(order) + [uid]
      ensures Get(uid) == Some(component) && uid in order
      ensures forall k :: k != uid ==> Get(k) == old(Get(k))
    {
      if uid !in components {
        order := order + [uid];
      }
      components := components[uid := component];
    }

    /** `getRegisteredComponents()`: every registered identifier exactly once, in
        insertion order. */
    function RegisteredComponents(): (r: seq<string>)
      requires Valid()
      reads this
      ensures r == order
      ensures forall k :: k in r <==> k in components
      ensures forall i, j :: 0 <= i < j < |r| ==> r[i] != r[j]
      ensures |r| == |components|
    {
      DistinctCard(order, components.Keys);
      order
    }
  }

  /** A sequence without repetitions is as long as the set of its elements. */
  lemma {:induction false} DistinctCard(s: seq<string>, keys: set<string>)
    requires forall k :: k in keys <==> k in s
    requires forall i, j :: 0 <= i < j < |s| ==> s[i] != s[j]
    ensures |keys| == |s|
    decreases |s|
  {
    if s != [] {
      var n := |s| - 1;
      var rest := keys - {s[n]};
      forall k ensures k in rest <==> k in s[..n] {
        if k in s[..n] {
          var i :| 0 <= i < n && s[..n][i] == k;
          assert s[i] == k;
        }
        if k in s && k != s[n] {
          var i :| 0 <= i < |s| && s[i] == k;
          assert s[..n][i] == k;
        }
      }
      DistinctCard(s[..n], rest);
    }
  }
}
