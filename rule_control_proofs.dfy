/** What the rule walk promises: one slot per schema node in schema order,
    visibility gating, the shape of each leaf's instruction, change
    forwarding, the ids it reads, and the uniqueness of sibling keys. */
module RuleControlProofs {
  import opened RuleSchema
  import opened Decimal
  import opened RuleControl

  // ---------------------------------------------------------------------
  // Position: slot i is the rendering of node i at index i.

  lemma {:induction false} RenderFromAt(nodes: seq<Node>, from: nat, i: nat, ro: RuleObject, t: Translate)
    requires from <= i < |nodes|
    ensures RenderFrom(nodes, from, ro, t)[i - from] == RenderNode(nodes[i], i, ro, t)
    decreases i - from
  {
    if from < i {
      RenderFromAt(nodes, from + 1, i, ro, t);
    }
  }

  /** Slot `i` of the output is exactly what node `i` renders to at index
      `i`: nothing is dropped, shifted or reordered. */
  lemma RenderAt(nodes: seq<Node>, i: nat, ro: RuleObject, t: Translate)
    requires i < |nodes|
    ensures |Render(nodes, ro, t)| == |nodes|
    ensures Render(nodes, ro, t)[i] == RenderNode(nodes[i], i, ro, t)
  {
    RenderFromAt(nodes, 0, i, ro, t);
  }

  // ---------------------------------------------------------------------
  // One lemma per kind of node.

  /** A group's slot is filled exactly when its visibility condition holds
      of the whole rule object; then it holds the walk of the group's items
      over that same rule object, keyed and named by the group's id. */
  lemma GroupSlot(nodes: seq<Node>, i: nat, ro: RuleObject, t: Translate)
    requires i < |nodes| && nodes[i].Group?
    ensures Render(nodes, ro, t)[i].Some? <==> nodes[i].head.visible(ro)
    ensures nodes[i].head.visible(ro) ==>
      Render(nodes, ro, t)[i] ==
        Some(RuleSetGroup(GroupKey(nodes[i].head.id), t(GroupNameKey(nodes[i].head.id)),
                          Render(nodes[i].items, ro, t)))
  {
    RenderAt(nodes, i, ro, t);
  }

  /** A hidden item leaves its slot empty. */
  lemma HiddenSlot(nodes: seq<Node>, i: nat, ro: RuleObject, t: Translate)
    requires i < |nodes| && nodes[i].Leaf? && nodes[i].value.kind.Hidden?
    ensures Render(nodes, ro, t)[i] == None
  {
    RenderAt(nodes, i, ro, t);
  }

  /** A separator renders as a separator keyed by its position among its
      siblings; it carries no rule id and no value. */
  lemma SeparatorSlot(nodes: seq<Node>, i: nat, ro: RuleObject, t: Translate)
    requires i < |nodes| && nodes[i].Leaf? && nodes[i].value.kind.Separator?
    ensures Render(nodes, ro, t)[i] == Some(SeparatorLine("separator-" + NatToString(i)))
  {
    RenderAt(nodes, i, ro, t);
  }

  /** The widget drawn for each control kind. */
  predicate WidgetShows(w: Widget, k: Kind) {
    match w
    case CheckboxControl => k == Checkbox
    case IntegerControl => k == Integer
    case SelectControl => k == Select
    case TimeControl => k == Time
  }

  /** A checkbox, integer, select or time item renders as the widget of its
      kind, keyed `item-{id}`, carrying the item itself, the value stored
      under its id (None when the map has no entry) and a handler bound to
      its id. */
  lemma ControlSlot(nodes: seq<Node>, i: nat, ro: RuleObject, t: Translate)
    requires i < |nodes| && nodes[i].Leaf? && IsControlKind(nodes[i].value.kind)
    ensures var item := nodes[i].value;
      && Render(nodes, ro, t)[i].Some?
      && var c := Render(nodes, ro, t)[i].value;
      && c.Control?
      && WidgetShows(c.widget, item.kind)
      && c.key == "item-" + item.id
      && c.item == item
      && (c.value.Some? <==> item.id in ro.rules)
      && (c.value.Some? ==> c.value.value == ro.rules[item.id])
      && c.onChange == Bound(item.id)
  {
    RenderAt(nodes, i, ro, t);
  }

  /** Calling the handler of the control rendered for item `id` with value
      `v` makes exactly one call, `onUpdate(id, v)`. */
  lemma BoundHandlerForwards(nodes: seq<Node>, i: nat, ro: RuleObject, t: Translate, v: string)
    requires i < |nodes| && nodes[i].Leaf? && IsControlKind(nodes[i].value.kind)
    ensures Render(nodes, ro, t)[i].Some? && Render(nodes, ro, t)[i].value.Control?
    ensures Invoke(Render(nodes, ro, t)[i].value.onChange, v) == [UpdateCall(nodes[i].value.id, v)]
  {
    ControlSlot(nodes, i, ro, t);
  }

  /** Two renders of the same schema, whatever the values and the
      translation, hand the control of item `id` the same handler. */
  lemma HandlerStable(nodes: seq<Node>, i: nat, ro1: RuleObject, ro2: RuleObject, t1: Translate, t2: Translate)
    requires i < |nodes| && nodes[i].Leaf? && IsControlKind(nodes[i].value.kind)
    ensures Render(nodes, ro1, t1)[i].Some? && Render(nodes, ro1, t1)[i].value.Control?
    ensures Render(nodes, ro2, t2)[i].Some? && Render(nodes, ro2, t2)[i].value.Control?
    ensures Render(nodes, ro1, t1)[i].value.onChange == Render(nodes, ro2, t2)[i].value.onChange
  {
    ControlSlot(nodes, i, ro1, t1);
    ControlSlot(nodes, i, ro2, t2);
  }

  // ---------------------------------------------------------------------
  // The whole output tree, read on its own.

  /** Every filled slot at every depth is consistent with the rule object:
      controls show their item's kind, are keyed by and bound to the item's
      id and carry its stored value; separators are keyed by their
      position; groups are keyed `group-...` and hold consistent slots. */
  ghost predicate SlotsConsistent(slots: seq<Option<Instr>>, ro: RuleObject)
    decreases slots, 2
  {
    forall i :: 0 <= i < |slots| ==> SlotConsistent(slots[i], i, ro)
  }

  ghost predicate SlotConsistent(slot: Option<Instr>, pos: nat, ro: RuleObject)
    decreases slot, 1
  {
    slot.Some? ==> InstrConsistent(slot.value, pos, ro)
  }

  ghost predicate InstrConsistent(ins: Instr, pos: nat, ro: RuleObject)
    decreases ins, 0
  {
    match ins
    case RuleSetGroup(key, _, children) =>
      |key| >= 6 && key[..6] == "group-" && SlotsConsistent(children, ro)
    case SeparatorLine(key) =>
      key == "separator-" + NatToString(pos)
    case Control(widget, key, item, value, onChange) =>
      && IsControlKind(item.kind)
      && WidgetShows(widget, item.kind)
      && key == "item-" + item.id
      && value == Lookup(ro.rules, item.id)
      && onChange == Bound(item.id)
  }

  lemma {:induction false} RenderConsistent(nodes: seq<Node>, ro: RuleObject, t: Translate)
    ensures SlotsConsistent(Render(nodes, ro, t), ro)
    decreases nodes
  {
    var out := Render(nodes, ro, t);
    forall i | 0 <= i < |out|
      ensures SlotConsistent(out[i], i, ro)
    {
      RenderAt(nodes, i, ro, t);
      if nodes[i].Group? {
        RenderConsistent(nodes[i].items, ro, t);
      }
    }
  }

  /** Every control of a consistent level forwards a change of its value as
      one `onUpdate` call naming its own rule id (deeper levels are the
      children of consistent groups, so this applies to them in turn). */
  lemma {:induction false} ConsistentHandlersForward(slots: seq<Option<Instr>>, ro: RuleObject, v: string)
    requires SlotsConsistent(slots, ro)
    ensures forall i :: 0 <= i < |slots| && slots[i].Some? && slots[i].value.Control? ==>
      Invoke(slots[i].value.onChange, v) == [UpdateCall(slots[i].value.item.id, v)]
  {
    forall i | 0 <= i < |slots| && slots[i].Some? && slots[i].value.Control?
      ensures Invoke(slots[i].value.onChange, v) == [UpdateCall(slots[i].value.item.id, v)]
    {
      assert SlotConsistent(slots[i], i, ro);
      assert InstrConsistent(slots[i].value, i, ro);
    }
  }

  // ---------------------------------------------------------------------
  // Which rule ids the walk reads.

  /** The ids whose values the walk reads: control items reached through
      visible groups only. */
  ghost function LookedUp(nodes: seq<Node>, ro: RuleObject): set<string>
    decreases nodes, 1
  {
    set i, id | 0 <= i < |nodes| && id in NodeLookedUp(nodes[i], ro) :: id
  }

  ghost function NodeLookedUp(node: Node, ro: RuleObject): set<string>
    decreases node, 0
  {
    match node
    case Group(head, items) => if head.visible(ro) then LookedUp(items, ro) else {}
    case Leaf(item) => if IsControlKind(item.kind) then {item.id} else {}
  }

  /** The ids of every control item in the schema, visible or not. */
  ghost function ControlIdsOf(nodes: seq<Node>): set<string>
    decreases nodes, 1
  {
    set i, id | 0 <= i < |nodes| && id in NodeControlIds(nodes[i]) :: id
  }

  ghost function NodeControlIds(node: Node): set<string>
    decreases node, 0
  {
    match node
    case Group(_, items) => ControlIdsOf(items)
    case Leaf(item) => if IsControlKind(item.kind) then {item.id} else {}
  }

  /** The ids of every control instruction in an output tree. */
  ghost function ShownIds(slots: seq<Option<Instr>>): set<string>
    decreases slots, 2
  {
    set i, id | 0 <= i < |slots| && id in SlotIds(slots[i]) :: id
  }

  ghost function SlotIds(slot: Option<Instr>): set<string>
    decreases slot, 1
  {
    if slot.Some? then InstrIds(slot.value) else {}
  }

  ghost function InstrIds(ins: Instr): set<string>
    decreases ins, 0
  {
    match ins
    case RuleSetGroup(_, _, children) => ShownIds(children)
    case SeparatorLine(_) => {}
    case Control(_, _, item, _, _) => {item.id}
  }

  /** The controls shown are exactly those of the ids the walk reads. */
  lemma {:induction false} ShownIdsAreLookedUp(nodes: seq<Node>, ro: RuleObject, t: Translate)
    ensures ShownIds(Render(nodes, ro, t)) == LookedUp(nodes, ro)
    decreases nodes
  {
    var out := Render(nodes, ro, t);
    forall i | 0 <= i < |nodes|
      ensures SlotIds(out[i]) == NodeLookedUp(nodes[i], ro)
    {
      RenderAt(nodes, i, ro, t);
      if nodes[i].Group? && nodes[i].head.visible(ro) {
        ShownIdsAreLookedUp(nodes[i].items, ro, t);
      }
    }
    forall id | id in ShownIds(out) ensures id in LookedUp(nodes, ro) {
      var i :| 0 <= i < |out| && id in SlotIds(out[i]);
      assert id in NodeLookedUp(nodes[i], ro);
    }
    forall id | id in LookedUp(nodes, ro) ensures id in ShownIds(out) {
      var i :| 0 <= i < |nodes| && id in NodeLookedUp(nodes[i], ro);
      assert id in SlotIds(out[i]);
    }
  }

  /** The walk reads only ids of control items: never a hidden item's or a
      separator's id, unless a control item elsewhere uses the same id. */
  lemma {:induction false} LookedUpAreControlIds(nodes: seq<Node>, ro: RuleObject)
    ensures LookedUp(nodes, ro) <= ControlIdsOf(nodes)
    decreases nodes
  {
    forall id | id in LookedUp(nodes, ro) ensures id in ControlIdsOf(nodes) {
      var i :| 0 <= i < |nodes| && id in NodeLookedUp(nodes[i], ro);
      if nodes[i].Group? {
        LookedUpAreControlIds(nodes[i].items, ro);
      }
      assert id in NodeControlIds(nodes[i]);
    }
  }

  /** Groups whose visibility agrees under two rule objects, at every level
      the walk enters. */
  ghost predicate SameVisibility(nodes: seq<Node>, ro1: RuleObject, ro2: RuleObject)
    decreases nodes, 1
  {
    forall i :: 0 <= i < |nodes| ==> NodeSameVisibility(nodes[i], ro1, ro2)
  }

  ghost predicate NodeSameVisibility(node: Node, ro1: RuleObject, ro2: RuleObject)
    decreases node, 0
  {
    node.Group? ==>
      && node.head.visible(ro1) == node.head.visible(ro2)
      && (node.head.visible(ro1) ==> SameVisibility(node.items, ro1, ro2))
  }

  /** The output depends on the rule values only through the ids the walk
      reads: values under invisible groups, of hidden items and of ids not
      in the schema may be anything, or missing, without changing it. */
  lemma {:induction false} RenderReadsOnlyLookedUp(nodes: seq<Node>, ro1: RuleObject, ro2: RuleObject, t: Translate)
    requires SameVisibility(nodes, ro1, ro2)
    requires forall id :: id in LookedUp(nodes, ro1) ==> Lookup(ro1.rules, id) == Lookup(ro2.rules, id)
    ensures Render(nodes, ro1, t) == Render(nodes, ro2, t)
    decreases nodes
  {
    var a, b := Render(nodes, ro1, t), Render(nodes, ro2, t);
    forall i | 0 <= i < |nodes| ensures a[i] == b[i] {
      RenderAt(nodes, i, ro1, t);
      RenderAt(nodes, i, ro2, t);
      assert NodeSameVisibility(nodes[i], ro1, ro2);
      match nodes[i]
      case Group(head, items) =>
        if head.visible(ro1) {
          forall id | id in LookedUp(items, ro1)
            ensures Lookup(ro1.rules, id) == Lookup(ro2.rules, id)
          {
            assert id in NodeLookedUp(nodes[i], ro1);
          }
          RenderReadsOnlyLookedUp(items, ro1, ro2, t);
        }
      case Leaf(item) =>
        if IsControlKind(item.kind) {
          assert item.id in NodeLookedUp(nodes[i], ro1);
        }
    }
  }

  // ---------------------------------------------------------------------
  // List keys among siblings.

  /** The keys of the filled slots of one level are pairwise distinct. */
  predicate DistinctKeys(slots: seq<Option<Instr>>) {
    forall i, j :: 0 <= i < j < |slots| && slots[i].Some? && slots[j].Some? ==>
      slots[i].value.key != slots[j].value.key
  }

  /** What the schema must guarantee for sibling keys to be distinct: no
      two sibling groups share an id and no two sibling control items share
      an id. The source does not check this. */
  predicate SiblingIdsDistinct(nodes: seq<Node>) {
    forall i, j :: 0 <= i < j < |nodes| ==>
      && (nodes[i].Group? && nodes[j].Group? ==> nodes[i].head.id != nodes[j].head.id)
      && (nodes[i].Leaf? && nodes[j].Leaf? && IsControlKind(nodes[i].value.kind) && IsControlKind(nodes[j].value.kind)
          ==> nodes[i].value.id != nodes[j].value.id)
  }

  lemma PrefixCancel(p: string, a: string, b: string)
    ensures p + a == p + b <==> a == b
  {
    if p + a == p + b {
      assert a == (p + a)[|p|..];
      assert b == (p + b)[|p|..];
    }
  }

  /** Keys of different kinds of instruction never collide: they differ in
      their first character. */
  lemma KeyHeads(id: string, i: nat)
    ensures GroupKey(id)[0] == 'g' && ItemKey(id)[0] == 'i' && SeparatorKey(i)[0] == 's'
  {
  }

  lemma SlotKeysDiffer(nodes: seq<Node>, i: nat, j: nat, ro: RuleObject, t: Translate)
    requires i < j < |nodes| && SiblingIdsDistinct(nodes)
    requires Render(nodes, ro, t)[i].Some? && Render(nodes, ro, t)[j].Some?
    ensures Render(nodes, ro, t)[i].value.key != Render(nodes, ro, t)[j].value.key
  {
    RenderAt(nodes, i, ro, t);
    RenderAt(nodes, j, ro, t);
    var a, b := nodes[i], nodes[j];
    KeyHeads(if a.Group? then a.head.id else a.value.id, i);
    KeyHeads(if b.Group? then b.head.id else b.value.id, j);
    if a.Group? && b.Group? {
      PrefixCancel("group-", a.head.id, b.head.id);
    } else if a.Leaf? && b.Leaf? && a.value.kind.Separator? && b.value.kind.Separator? {
      PrefixCancel("separator-", NatToString(i), NatToString(j));
      NatToStringInjective(i, j);
    } else if a.Leaf? && b.Leaf? && IsControlKind(a.value.kind) && IsControlKind(b.value.kind) {
      PrefixCancel("item-", a.value.id, b.value.id);
    }
  }

  /** Under distinct sibling ids every level's keys are distinct; separators
      are always distinct from one another because they are keyed by
      position. */
  lemma RenderKeysDistinct(nodes: seq<Node>, ro: RuleObject, t: Translate)
    requires SiblingIdsDistinct(nodes)
    ensures DistinctKeys(Render(nodes, ro, t))
  {
    var out := Render(nodes, ro, t);
    forall i, j | 0 <= i < j < |out| && out[i].Some? && out[j].Some?
      ensures out[i].value.key != out[j].value.key
    {
      SlotKeysDiffer(nodes, i, j, ro, t);
    }
  }

  /** Distinct group ids ask the translation for distinct keys. */
  lemma GroupNameKeyInjective(a: string, b: string)
    ensures GroupNameKey(a) == GroupNameKey(b) <==> a == b
  {
    var p := "game_client:ruleGroup.";
    if GroupNameKey(a) == GroupNameKey(b) {
      assert |a| == |b|;
      assert a == GroupNameKey(a)[|p|..|p| + |a|];
      assert b == GroupNameKey(b)[|p|..|p| + |b|];
    }
  }
}
