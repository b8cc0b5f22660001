/** Three concrete schemas and what the walk makes of them. */
module RuleControlScenarios {
  import opened RuleSchema
  import opened Decimal
  import opened RuleControl
  import opened RuleControlProofs

  /** One checkbox whose value is stored: one checkbox control carrying
      that value, whose handler reports changes under the same id. */
  lemma SingleCheckbox(t: Translate, v: string)
    ensures var item := Item(Checkbox, "auto_surrender", map[]);
      var out := Render([Leaf(item)], RuleObject(map["auto_surrender" := "true"]), t);
      && out == [Some(Control(CheckboxControl, "item-auto_surrender", item, Some("true"), Bound("auto_surrender")))]
      && Invoke(out[0].value.onChange, v) == [UpdateCall("auto_surrender", v)]
  {
    var item := Item(Checkbox, "auto_surrender", map[]);
    var nodes := [Leaf(item)];
    var ro := RuleObject(map["auto_surrender" := "true"]);
    ControlSlot(nodes, 0, ro, t);
    BoundHandlerForwards(nodes, 0, ro, t, v);
    var out := Render(nodes, ro, t);
    assert out == [out[0]];
    assert out[0].value.widget == CheckboxControl;
    assert out[0].value.key == "item-auto_surrender";
    assert out[0].value.value == Some("true");
  }

  /** A visible group holding a time item: one group, named by the
      translation of its key, holding one time control. */
  lemma VisibleTimeGroup(visible: RuleObject -> bool, t: Translate)
    requires visible(RuleObject(map["turn_time" := "30"]))
    ensures var item := Item(Time, "turn_time", map[]);
      var nodes := [Group(Label("time", visible), [Leaf(item)])];
      Render(nodes, RuleObject(map["turn_time" := "30"]), t) ==
        [Some(RuleSetGroup("group-time", t("game_client:ruleGroup.time.name"),
          [Some(Control(TimeControl, "item-turn_time", item, Some("30"), Bound("turn_time")))]))]
  {
    var item := Item(Time, "turn_time", map[]);
    var nodes := [Group(Label("time", visible), [Leaf(item)])];
    var ro := RuleObject(map["turn_time" := "30"]);
    GroupSlot(nodes, 0, ro, t);
    ControlSlot(nodes[0].items, 0, ro, t);
    var inner := Render(nodes[0].items, ro, t);
    assert inner == [inner[0]];
    assert inner[0].value.widget == TimeControl;
    assert inner[0].value.key == "item-turn_time";
    assert inner[0].value.value == Some("30");
    var out := Render(nodes, ro, t);
    assert out == [out[0]];
    assert out[0].value.key == "group-time";
    assert GroupNameKey("time") == "game_client:ruleGroup.time.name";
  }

  /** An invisible group over an item whose value is missing: one empty
      slot, and the missing value is never read. */
  lemma InvisibleGroupOverMissingValue(visible: RuleObject -> bool, t: Translate)
    requires !visible(RuleObject(map[]))
    ensures var nodes := [Group(Label("hidden_group", visible), [Leaf(Item(Checkbox, "z", map[]))])];
      && Render(nodes, RuleObject(map[]), t) == [None]
      && LookedUp(nodes, RuleObject(map[])) == {}
  {
    var nodes := [Group(Label("hidden_group", visible), [Leaf(Item(Checkbox, "z", map[]))])];
    var ro := RuleObject(map[]);
    GroupSlot(nodes, 0, ro, t);
    var out := Render(nodes, ro, t);
    assert out == [out[0]];
  }
}
