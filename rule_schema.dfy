/** The rule schema that drives the rule editor: a tree of groups and leaf
    items, and the rule object whose value map the editor displays. */
module RuleSchema {

  datatype Option<T> = None | Some(value: T)

  /** The current rule settings. Visibility predicates receive the whole
      object; leaf items read its `rules` map, keyed by rule id. */
  datatype RuleObject = RuleObject(rules: map<string, string>)

  /** `Map.get`: the value stored under `id`, or `undefined` (None). */
  function Lookup(rules: map<string, string>, id: string): (v: Option<string>)
    ensures v.Some? <==> id in rules
    ensures v.Some? ==> v.value == rules[id]
  {
    if id in rules then Some(rules[id]) else None
  }

  /** The `type` tag of a leaf item. */
  datatype Kind = Separator | Hidden | Checkbox | Integer | Select | Time

  /** Kinds that render an editing control bound to a rule id. */
  predicate IsControlKind(k: Kind) {
    k.Checkbox? || k.Integer? || k.Select? || k.Time?
  }

  /** A leaf item definition: its kind, the rule id it edits (not read for
      separators and hidden items), and the kind-specific attributes the
      control widget receives unchanged (bounds, choices, ...). */
  datatype Item = Item(kind: Kind, id: string, attrs: map<string, string>)

  /** A group label (`label` in the schema): its id and its visibility condition over the whole
      rule object. */
  datatype Label = Label(id: string, visible: RuleObject -> bool)

  /** A schema node: a labelled group of further nodes, or a leaf item. */
  datatype Node =
    | Group(head: Label, items: seq<Node>)
    | Leaf(value: Item)
}
