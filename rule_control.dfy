/** The rule editor's schema walk (`RuleControl.render`) and its change
    forwarding (`handleChange`). The React elements it builds are abstracted
    to render instructions; `null` children become empty slots. */
module RuleControl {
  import opened RuleSchema
  import opened Decimal

  /** The widget a control item is drawn with. */
  datatype Widget = CheckboxControl | IntegerControl | SelectControl | TimeControl

  /** A change handler bound to one rule id. */
  datatype Handler = Bound(rule: string)

  /** One call of the owner's `onUpdate(rule, value)`. */
  datatype UpdateCall = UpdateCall(rule: string, value: string)

  /** What one schema node renders to. */
  datatype Instr =
    | RuleSetGroup(key: string, name: string, children: seq<Option<Instr>>)
    | SeparatorLine(key: string)
    | Control(widget: Widget, key: string, item: Item, value: Option<string>, onChange: Handler)

  /** The translation function, treated as opaque. */
  type Translate = string -> string

  /** The list key of a group: `group-` followed by the group id, which
      can be read back from the key. */
  function GroupKey(id: string): (k: string)
    ensures |k| == 6 + |id| && k[..6] == "group-" && k[6..] == id
  {
    "group-" + id
  }

  /** The list key of a control: `item-` followed by the rule id. */
  function ItemKey(id: string): (k: string)
    ensures |k| == 5 + |id| && k[..5] == "item-" && k[5..] == id
  {
    "item-" + id
  }

  /** The list key of a separator: `separator-` followed by the decimal
      text of its index, from which the index can be read back. */
  function SeparatorKey(i: nat): (k: string)
    ensures |k| > 10 && k[..10] == "separator-"
    ensures forall j :: 10 <= j < |k| ==> IsDigit(k[j])
    ensures ParseNat(k[10..]) == i
  {
    ParseNatToString(i);
    assert ("separator-" + NatToString(i))[10..] == NatToString(i);
    "separator-" + NatToString(i)
  }

  /** The translation key of a group's display name: the group id between
      a fixed prefix and a fixed suffix. */
  function GroupNameKey(id: string): (k: string)
    ensures |k| == 27 + |id|
    ensures k[..22] == "game_client:ruleGroup." && k[22..22 + |id|] == id && k[22 + |id|..] == ".name"
  {
    "game_client:ruleGroup." + id + ".name"
  }

  function WidgetFor(k: Kind): (w: Widget)
    requires IsControlKind(k)
  {
    match k
    case Checkbox => CheckboxControl
    case Integer => IntegerControl
    case Select => SelectControl
    case Time => TimeControl
  }

  /** `handleChange(rule, value)`: the calls it makes to `onUpdate`. */
  function HandleChange(rule: string, value: string): (calls: seq<UpdateCall>)
    ensures |calls| == 1 && calls[0].rule == rule && calls[0].value == value
  {
    [UpdateCall(rule, value)]
  }

  /** Invoking a bound handler with a new value: the binder supplies the
      bound rule id as the first argument of `handleChange`. */
  function Invoke(h: Handler, value: string): (calls: seq<UpdateCall>)
    ensures |calls| == 1 && calls[0].rule == h.rule && calls[0].value == value
  {
    HandleChange(h.rule, value)
  }

  /** `render()`: one slot per schema node, in schema order. */
  function Render(nodes: seq<Node>, ro: RuleObject, t: Translate): (out: seq<Option<Instr>>)
    ensures |out| == |nodes|
    decreases nodes, |nodes| + 1
  {
    RenderFrom(nodes, 0, ro, t)
  }

  /** The slots of `nodes[from..]`; each node still sees its own index. */
  function RenderFrom(nodes: seq<Node>, from: nat, ro: RuleObject, t: Translate): (out: seq<Option<Instr>>)
    requires from <= |nodes|
    ensures |out| == |nodes| - from
    decreases nodes, |nodes| - from
  {
    if from == |nodes| then []
    else [RenderNode(nodes[from], from, ro, t)] + RenderFrom(nodes, from + 1, ro, t)
  }

  /** The callback of `ruledefs.map` for node `node` at index `i`. */
  function RenderNode(node: Node, i: nat, ro: RuleObject, t: Translate): (slot: Option<Instr>)
    ensures slot.None? <==>
      (node.Group? && !node.head.visible(ro)) || (node.Leaf? && node.value.kind.Hidden?)
    ensures slot.Some? ==>
      && (slot.value.RuleSetGroup? <==> node.Group?)
      && (slot.value.SeparatorLine? <==> node.Leaf? && node.value.kind.Separator?)
      && (slot.value.Control? <==> node.Leaf? && IsControlKind(node.value.kind))
    ensures slot.Some? && slot.value.Control? ==>
      slot.value.item == node.value && slot.value.onChange == Bound(node.value.id)
    decreases node, 0
  {
    match node
    case Group(head, items) =>
      if head.visible(ro) then
        Some(RuleSetGroup(GroupKey(head.id), t(GroupNameKey(head.id)), Render(items, ro, t)))
      else
        None
    case Leaf(item) =>
      match item.kind
      case Separator => Some(SeparatorLine(SeparatorKey(i)))
      case Hidden => None
      case _ =>
        Some(Control(WidgetFor(item.kind), ItemKey(item.id), item, Lookup(ro.rules, item.id), Bound(item.id)))
  }
}
