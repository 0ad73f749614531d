/** Places in a document: which nodes a path of positions leads to, and in what order they stand. */
module JsonPaths {
  import opened Basics
  import opened JsonTree

  /** A way down a document: at each node the number of the item or field to go on with. */
  type Path = seq<nat>

  ghost predicate Leads(root: Json, path: Path, node: Json) {
    if path == [] then root == node
    else
      match root
      case Arr(items) => path[0] < |items| && Leads(items[path[0]], path[1..], node)
      case Obj(fields) => path[0] < |fields| && Leads(fields[path[0]].value, path[1..], node)
      case _ => false
  }

  /** The key a path ends under; an item of an array stands under none, and `key` is the root's own. */
  ghost function KeyAt(root: Json, path: Path, key: string): string {
    if path == [] then key
    else
      match root
      case Arr(items) => if path[0] < |items| then KeyAt(items[path[0]], path[1..], "") else ""
      case Obj(fields) => if path[0] < |fields| then KeyAt(fields[path[0]].value, path[1..], fields[path[0]].name) else ""
      case _ => ""
  }

  /** The node stands somewhere in the document, under this key. */
  ghost predicate StandsUnder(root: Json, rootKey: string, key: string, node: Json) {
    exists path :: Leads(root, path, node) && KeyAt(root, path, rootKey) == key
  }

  lemma {:induction false} RootStands(root: Json, rootKey: string)
    ensures StandsUnder(root, rootKey, rootKey, root)
  {
    assert Leads(root, [], root) && KeyAt(root, [], rootKey) == rootKey;
  }

  lemma {:induction false} StandsInItem(items: seq<Json>, i: nat, rootKey: string, key: string, node: Json)
    requires i < |items| && StandsUnder(items[i], "", key, node)
    ensures StandsUnder(Arr(items), rootKey, key, node)
  {
    var path :| Leads(items[i], path, node) && KeyAt(items[i], path, "") == key;
    assert ([i] + path)[1..] == path;
    assert Leads(Arr(items), [i] + path, node) && KeyAt(Arr(items), [i] + path, rootKey) == key;
  }

  lemma {:induction false} StandsInField(fields: seq<Field>, i: nat, rootKey: string, key: string, node: Json)
    requires i < |fields| && StandsUnder(fields[i].value, fields[i].name, key, node)
    ensures StandsUnder(Obj(fields), rootKey, key, node)
  {
    var path :| Leads(fields[i].value, path, node) && KeyAt(fields[i].value, path, fields[i].name) == key;
    assert ([i] + path)[1..] == path;
    assert Leads(Obj(fields), [i] + path, node) && KeyAt(Obj(fields), [i] + path, rootKey) == key;
  }

  /** What stands in a document is the root itself, or stands in one of its items or fields. */
  lemma {:induction false} StandsSomewhere(root: Json, rootKey: string, key: string, node: Json)
    requires StandsUnder(root, rootKey, key, node)
    ensures || (node == root && key == rootKey)
            || (root.Arr? && exists i :: 0 <= i < |root.items| && StandsUnder(root.items[i], "", key, node))
            || (root.Obj? && exists i :: 0 <= i < |root.fields| && StandsUnder(root.fields[i].value, root.fields[i].name, key, node))
  {
    var path :| Leads(root, path, node) && KeyAt(root, path, rootKey) == key;
    if path != [] {
      if root.Arr? {
        assert Leads(root.items[path[0]], path[1..], node);
        assert StandsUnder(root.items[path[0]], "", key, node);
      } else {
        assert Leads(root.fields[path[0]].value, path[1..], node);
        assert StandsUnder(root.fields[path[0]].value, root.fields[path[0]].name, key, node);
      }
    }
  }
}
