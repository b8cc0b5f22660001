# Rule editor schema walk

This project models the core of the game-start rule editor of a werewolf
("jinro") game client: the `RuleControl` component. It is given a schema
(`ruledefs`), the current rule object and an `onUpdate` callback. It walks
the schema and turns every node into one child slot:

- A group whose visibility condition holds of the whole rule object becomes
  a `RuleSetGroup` keyed `group-{id}`. Its name is the translation of
  `game_client:ruleGroup.{id}.name`, and it holds a nested walk of the
  group's items over the same rule object.
- An invisible group becomes an empty slot, and its items are never walked.
- A separator becomes a separator keyed `separator-{i}`, where `i` is its
  index among its siblings.
- A hidden item becomes an empty slot.
- A checkbox, integer, select or time item becomes the widget of its kind,
  keyed `item-{id}`. The widget receives the item definition, the value stored
  under `id` in the rule map, and a change handler bound to `id`. It also
  receives the translation function `t`, which the model drops.

A change handler forwards `(rule, value)` unchanged to `onUpdate`.

The walk is modelled as pure functions over a `Node` datatype
(`Group(head, items) | Leaf(value)`). React elements become an `Instr`
datatype (`RuleSetGroup`, `SeparatorLine`, `Control`), and a `null` child
becomes the empty slot `None`. The modules are:

- `RuleSchema` (rule_schema.dfy): schema nodes, item kinds, the rule object, and `Map.get` as `Lookup`.
- `RuleControl` (rule_control.dfy): the walk (`Render`, `RenderFrom`, `RenderNode`), list keys, bound handlers and `HandleChange`.
- `Decimal` (decimal.dfy): how `${i}` writes a separator's index in base ten, with its parse round trip.
- `RuleControlProofs` (rule_control_proofs.dfy): the properties of the walk.
- `RuleControlScenarios` (rule_control_scenarios.dfy): three concrete schemas worked through.

Three behaviours of the code that the model keeps as they are:

- **Missing value.** A control item whose id has no entry in the rule map is
  not a fault. `rules.get(value.id)!` is a TypeScript non-null assertion with
  no runtime check, so the control receives `undefined`. The model's control
  carries `Lookup(rules, id)`, which is `None` in that case.
- **No invalid-schema fault.** The leaf-kind `switch` has no `default` branch.
  The `Kind` datatype makes the match exhaustive, so the model has no fault
  for an unknown kind.
- **Invisible group output.** A schema of one invisible group renders one
  `null` child, which React draws as nothing. The model gives `[None]`, not an
  empty sequence.

## Model

| member | source | states |
|---|---|---|
| RuleSchema.Lookup | front/src/game-start-control/rule-control/index.tsx:89 | `rules.get(id)` is present exactly when `id` is a key, and is then the stored value. A missing key gives `undefined`, not a fault. |
| RuleControl.Render | front/src/game-start-control/rule-control/index.tsx:43-136 | The walk returns exactly one slot per schema node. |
| RuleControl.RenderFrom | front/src/game-start-control/rule-control/index.tsx:55-134 | Mapping `nodes[from..]` gives one slot per remaining node. |
| RuleControl.HandleChange | front/src/game-start-control/rule-control/index.tsx:137-140 | A change makes exactly one `onUpdate` call, with the rule id and the value unchanged. |
| RuleControl.RenderNode | front/src/game-start-control/rule-control/index.tsx:55-133 | The `ruledefs.map` callback. A node's slot is empty if and only if it is an invisible group or a hidden item. A filled slot is a group exactly for a group node, a separator exactly for a separator item, and a control exactly for a checkbox, integer, select or time item. A control carries its item unchanged and a handler bound to the item's id. |
| RuleControl.Invoke | front/src/game-start-control/rule-control/index.tsx:90 | The closure that `updateHandlers.bind(value.id, this.handleChange)` returns. Calling it with a value makes exactly one `onUpdate` call, naming the bound rule id and passing the value unchanged. |
| RuleControl.GroupKey | front/src/game-start-control/rule-control/index.tsx:64 | A group's key is `group-` followed by the group id, which can be read back from the key. |
| RuleControl.ItemKey | front/src/game-start-control/rule-control/index.tsx:92 | A control's key is `item-` followed by the rule id, which can be read back from the key. |
| RuleControl.SeparatorKey | front/src/game-start-control/rule-control/index.tsx:83 | A separator's key is `separator-` followed by decimal digits only, and reading those digits gives back the separator's index. |
| RuleControl.GroupNameKey | front/src/game-start-control/rule-control/index.tsx:65 | The translation key of a group's name is `game_client:ruleGroup.`, then the group id, then `.name`. |
| RuleControlProofs.RenderFromAt | front/src/game-start-control/rule-control/index.tsx:55-134 | Slot `i - from` of the partial walk is node `i` rendered at its own index `i`. |
| RuleControlProofs.RenderAt | front/src/game-start-control/rule-control/index.tsx:55-134 | Slot `i` is node `i` rendered at index `i`. Nodes are never dropped, shifted or reordered. Skipped nodes keep their slot. |
| RuleControlProofs.GroupSlot | front/src/game-start-control/rule-control/index.tsx:56-76 | A group's slot is filled if and only if `visible(ruleObject)` holds. When it holds, the slot is a group keyed `group-{id}`, named `t(game_client:ruleGroup.{id}.name)`, holding the walk of its items over the same whole rule object. |
| RuleControlProofs.HiddenSlot | front/src/game-start-control/rule-control/index.tsx:85-87 | A hidden item's slot is empty. |
| RuleControlProofs.SeparatorSlot | front/src/game-start-control/rule-control/index.tsx:82-84 | A separator's slot is a separator keyed `separator-` plus its decimal index. It carries no id and no value. |
| RuleControlProofs.ControlSlot | front/src/game-start-control/rule-control/index.tsx:88-131 | A checkbox, integer, select or time item yields the widget of its own kind, keyed `item-{id}`. It carries the item itself and the value stored under `id` (present if and only if `id` is in the map), and its handler is bound to `id`. |
| RuleControlProofs.BoundHandlerForwards | front/src/game-start-control/rule-control/index.tsx:88-140 | Invoking the handler rendered for item `id` with `v` makes exactly the one call `onUpdate(id, v)`. |
| RuleControlProofs.HandlerStable | front/src/game-start-control/rule-control/index.tsx:88-131 | Two renders of the same schema give the control of an item the same bound handler, whatever the values and the translation. The stability shown is value equality of `Bound(id)`, stated for the slots of one level. It is not the reference identity of `CachedBinder` closures. |
| RuleControlProofs.RenderConsistent | front/src/game-start-control/rule-control/index.tsx:55-134 | At every depth of the output, each control shows its item's kind. Its key is `item-{id}` and its handler is bound to its item's id. It carries that id's stored value. Each separator is keyed by its position, and each group key starts with `group-`. |
| RuleControlProofs.ConsistentHandlersForward | front/src/game-start-control/rule-control/index.tsx:88-140 | In a consistent level, every control turns a change into one `onUpdate` call naming its own item's id. |
| RuleControlProofs.ShownIdsAreLookedUp | front/src/game-start-control/rule-control/index.tsx:55-134 | The controls in the output, at any depth, are exactly those for the ids the walk reads. These are the control items reached through visible groups only. |
| RuleControlProofs.LookedUpAreControlIds | front/src/game-start-control/rule-control/index.tsx:81-131 | Every id the walk reads belongs to a checkbox, integer, select or time item of the schema. Hidden items and separators are never read. |
| RuleControlProofs.RenderReadsOnlyLookedUp | front/src/game-start-control/rule-control/index.tsx:55-134 | The output depends on the rule values only through the ids the walk reads. Take two rule objects that agree on every visibility condition met and on every read id. They give equal output, even when values under invisible groups differ or are missing. |
| RuleControlProofs.SlotKeysDiffer | front/src/game-start-control/rule-control/index.tsx:63-131 | Assume sibling groups have distinct ids and sibling control items have distinct ids. Then two filled sibling slots have different keys. |
| RuleControlProofs.RenderKeysDistinct | front/src/game-start-control/rule-control/index.tsx:63-131 | Under the same assumption, all keys at one level are pairwise distinct. Separators never clash with each other because they are keyed by position. |
| RuleControlProofs.GroupNameKeyInjective | front/src/game-start-control/rule-control/index.tsx:65 | Two groups ask the translation for the same key if and only if their ids are equal. |
| Decimal.NatToString | front/src/game-start-control/rule-control/index.tsx:83 | The index text in a separator key is a non-empty string of decimal digits. It has one digit if and only if the index is below ten, and starts with `0` if and only if the index is zero. |
| Decimal.ParseNatToString | front/src/game-start-control/rule-control/index.tsx:83 | Reading an index's decimal text gives back the index. |
| Decimal.NatToStringInjective | front/src/game-start-control/rule-control/index.tsx:83 | Two indexes have the same decimal text if and only if they are equal. |
| RuleControlScenarios.SingleCheckbox | front/src/game-start-control/rule-control/index.tsx:88-97 | A single checkbox `auto_surrender` stored as `"true"` renders one checkbox keyed `item-auto_surrender` with value `"true"`. Its handler reports `("auto_surrender", v)`. |
| RuleControlScenarios.VisibleTimeGroup | front/src/game-start-control/rule-control/index.tsx:61-73 | A visible group `time` over a time item `turn_time` stored as `"30"` renders one group `group-time`, named `t(game_client:ruleGroup.time.name)`, holding one time control with value `"30"`. |
| RuleControlScenarios.InvisibleGroupOverMissingValue | front/src/game-start-control/rule-control/index.tsx:61-76 | An invisible group over a checkbox whose value is missing renders one empty slot and reads no id. |

## Left out

- React and JSX element construction, the `Fragment` wrapper and the widget components (`CheckboxControl`, `IntegerControl`, `SelectControl`, `TimeControl`, `Separator`, `RuleSetGroup`) are abstracted to the `Instr` constructors. The widgets' own code (`./rule`, `./group`) is not part of this model.
- MobX `@observer` reactivity decides when a render happens. That is framework plumbing. Each render is one call of the pure function `Render`, so two renders with the same inputs are equal by construction.
- The translation function `t` is an opaque parameter of type `string -> string`. The `i18n` module is not part of this model.
- The `t` prop that every control widget receives (lines 93, 104, 115, 126) is dropped from `Control`. Only the group name uses `t` in the model.
- The `CachedBinder` cache (`updateHandlers`, line 42) and its reference-stable closures are not modelled. `../../util/cached-binder` is not part of this model. A bound handler is the value `Bound(id)`, so handler stability is value equality. The per-component cache instance, one per nested `RuleControl`, has no counterpart. When a group's visibility toggles, its nested `RuleControl` is unmounted and remounted with a fresh cache, and its handlers change identity. The model does not capture this.
- `onUpdate` is not called as a side effect. `HandleChange` returns the list of calls it makes.
- Item attributes other than kind and id (bounds, choices, ...) are an opaque map. The control receives the whole item unchanged. The schema definition format (`../../defs/rule-definition`) is not part of this model.
- The rule object's fields other than `rules` are not modelled. Visibility conditions still receive the whole object.
- Uniqueness of item ids and group ids is not checked by the code. It is an assumption (`SiblingIdsDistinct`) of the key lemmas, not a guarantee.
- A visibility condition that throws is not modelled. Visibility conditions are total Dafny functions.
