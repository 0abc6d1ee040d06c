/**
 * The outcome-map toggle (`setOutcomeMap`) and its initial mode: the map's
 * kicker and each row's title, text and output take their `data-<mode>-...`
 * texts where both the slot and a filled attribute exist, and the map
 * buttons mark the chosen mode.
 */
module OutcomeMap {
  import opened Wrappers
  import opened Dom

  /** The mode used when no button is active or a button's `data-map` is empty. */
  const DefaultMode: string := "concept"

  /** A `.build-row`: its attributes and the text of its `.build-title`, `.build-text` and `.build-out` (None when missing). */
  datatype Row = Row(attrs: Attributes, title: Option<string>, text: Option<string>, out: Option<string>)

  /** The `.build-map` element: its attributes, its `.build-kicker` text and its rows. */
  datatype BuildMap = BuildMap(attrs: Attributes, kicker: Option<string>, rows: seq<Row>)

  /** The map (None when `.build-map` is missing) and the `.seg-btn[data-map]` buttons. */
  datatype MapView = MapView(buildMap: Option<BuildMap>, buttons: seq<SegButton>)

  /** The attribute `data-<mode>-<slot>`. */
  function ModeKey(mode: string, slot: string): string
  {
    "data-" + mode + "-" + slot
  }

  /** One `.build-row` after `setOutcomeMap(mode)`: each of its three slots goes through the guarded write of its `mode` attribute. */
  function UpdateRow(row: Row, mode: string): (r: Row)
    ensures RowSwitched(row, r, mode)
  {
    Row(row.attrs,
        Substitute(row.title, GetAttribute(row.attrs, ModeKey(mode, "title"))),
        Substitute(row.text, GetAttribute(row.attrs, ModeKey(mode, "text"))),
        Substitute(row.out, GetAttribute(row.attrs, ModeKey(mode, "out"))))
  }

  /** Each of the row's three slots went through the guarded write of its `mode` attribute. */
  predicate RowSwitched(before: Row, after: Row, mode: string)
  {
    && after.attrs == before.attrs
    && GuardedSlot(before.title, after.title, GetAttribute(before.attrs, ModeKey(mode, "title")))
    && GuardedSlot(before.text, after.text, GetAttribute(before.attrs, ModeKey(mode, "text")))
    && GuardedSlot(before.out, after.out, GetAttribute(before.attrs, ModeKey(mode, "out")))
  }

  /**
   * `setOutcomeMap(mode)`: nothing at all changes when the map is missing;
   * otherwise no attribute, row or slot appears or disappears, every slot
   * changes only to a filled `mode` attribute, and exactly the buttons for
   * `mode` are active.
   */
  function SwitchMode(v: MapView, mode: string): (r: MapView)
    ensures v.buildMap.None? ==> r == v
    ensures v.buildMap.Some? ==>
      && r.buildMap.Some?
      && r.buildMap.value.attrs == v.buildMap.value.attrs
      && GuardedSlot(v.buildMap.value.kicker, r.buildMap.value.kicker,
                     GetAttribute(v.buildMap.value.attrs, ModeKey(mode, "kicker")))
      && |r.buildMap.value.rows| == |v.buildMap.value.rows|
      && (forall k :: 0 <= k < |v.buildMap.value.rows| ==>
            RowSwitched(v.buildMap.value.rows[k], r.buildMap.value.rows[k], mode))
      && |r.buttons| == |v.buttons|
      && (forall k :: 0 <= k < |v.buttons| ==> r.buttons[k].key == v.buttons[k].key)
      && MarkedFor(r.buttons, mode)
  {
    match v.buildMap
    case None => v
    case Some(m) =>
      MapView(
        Some(BuildMap(
          m.attrs,
          Substitute(m.kicker, GetAttribute(m.attrs, ModeKey(mode, "kicker"))),
          seq(|m.rows|, k requires 0 <= k < |m.rows| => UpdateRow(m.rows[k], mode)))),
        MarkButtons(v.buttons, mode))
  }

  /** Switching to the same mode twice is the same as switching once. */
  lemma SwitchModeIdempotent(v: MapView, mode: string)
    ensures SwitchMode(SwitchMode(v, mode), mode) == SwitchMode(v, mode)
  {
    if v.buildMap.Some? {
      var m := v.buildMap.value;
      var once := SwitchMode(v, mode).buildMap.value;
      var twice := SwitchMode(SwitchMode(v, mode), mode).buildMap.value;
      forall k | 0 <= k < |m.rows|
        ensures twice.rows[k] == once.rows[k]
      {
        var row := m.rows[k];
        SubstituteTwice(row.title, GetAttribute(row.attrs, ModeKey(mode, "title")), GetAttribute(row.attrs, ModeKey(mode, "title")));
        SubstituteTwice(row.text, GetAttribute(row.attrs, ModeKey(mode, "text")), GetAttribute(row.attrs, ModeKey(mode, "text")));
        SubstituteTwice(row.out, GetAttribute(row.attrs, ModeKey(mode, "out")), GetAttribute(row.attrs, ModeKey(mode, "out")));
      }
      assert twice.rows == once.rows;
      SubstituteTwice(m.kicker, GetAttribute(m.attrs, ModeKey(mode, "kicker")), GetAttribute(m.attrs, ModeKey(mode, "kicker")));
      MarkLastWins(v.buttons, mode, mode);
    }
  }

  /** The markup gives `mode` a filled text for the kicker and for every row slot. */
  predicate Complete(v: MapView, mode: string)
  {
    v.buildMap.Some? ==>
      && Filled(GetAttribute(v.buildMap.value.attrs, ModeKey(mode, "kicker")))
      && forall k :: 0 <= k < |v.buildMap.value.rows| ==>
           var a := v.buildMap.value.rows[k].attrs;
           Filled(GetAttribute(a, ModeKey(mode, "title")))
           && Filled(GetAttribute(a, ModeKey(mode, "text")))
           && Filled(GetAttribute(a, ModeKey(mode, "out")))
  }

  /**
   * When the markup is complete for `second`, switching to it erases every
   * trace of an earlier switch: the toggle can go back and forth freely.
   */
  lemma CompleteModeOverrides(v: MapView, first: string, second: string)
    requires Complete(v, second)
    ensures SwitchMode(SwitchMode(v, first), second) == SwitchMode(v, second)
  {
    if v.buildMap.Some? {
      var m := v.buildMap.value;
      var direct := SwitchMode(v, second).buildMap.value;
      var via := SwitchMode(SwitchMode(v, first), second).buildMap.value;
      forall k | 0 <= k < |m.rows|
        ensures via.rows[k] == direct.rows[k]
      {
        var row := m.rows[k];
        SubstituteTwice(row.title, GetAttribute(row.attrs, ModeKey(first, "title")), GetAttribute(row.attrs, ModeKey(second, "title")));
        SubstituteTwice(row.text, GetAttribute(row.attrs, ModeKey(first, "text")), GetAttribute(row.attrs, ModeKey(second, "text")));
        SubstituteTwice(row.out, GetAttribute(row.attrs, ModeKey(first, "out")), GetAttribute(row.attrs, ModeKey(second, "out")));
      }
      assert via.rows == direct.rows;
      SubstituteTwice(m.kicker, GetAttribute(m.attrs, ModeKey(first, "kicker")), GetAttribute(m.attrs, ModeKey(second, "kicker")));
      MarkLastWins(v.buttons, first, second);
    }
  }

  /**
   * The initial mode: the `data-map` of the first active button, or
   * "concept" when no button is active or that attribute is empty.
   */
  function InitialMode(bs: seq<SegButton>): (mode: string)
    ensures mode != ""
    ensures mode == DefaultMode || exists k :: 0 <= k < |bs| && bs[k].active && bs[k].key == mode
    ensures forall k :: 0 <= k < |bs| && bs[k].active && bs[k].key != "" && (forall j :: 0 <= j < k ==> !bs[j].active) ==>
              mode == bs[k].key
    ensures forall k :: 0 <= k < |bs| && bs[k].active && bs[k].key == "" && (forall j :: 0 <= j < k ==> !bs[j].active) ==>
              mode == DefaultMode
    ensures (forall k :: 0 <= k < |bs| ==> !bs[k].active) ==> mode == DefaultMode
    decreases |bs|
  {
    if bs == [] then DefaultMode
    else if bs[0].active then (if bs[0].key == "" then DefaultMode else bs[0].key)
    else
      var mode := InitialMode(bs[1..]);
      assert forall k :: 1 <= k < |bs| ==> bs[k] == bs[1..][k - 1];
      mode
  }

  /** The outcome map's elements, updated in place. */
  class OutcomeMapToggle {
    var buildMap: Option<BuildMap>
    var buttons: seq<SegButton>

    function View(): MapView
      reads this
    {
      MapView(buildMap, buttons)
    }

    /** Page load: `setOutcomeMap(initial)` when the map and at least one button exist. */
    constructor (v: MapView)
      ensures View() == if v.buildMap.Some? && |v.buttons| > 0 then SwitchMode(v, InitialMode(v.buttons)) else v
    {
      buildMap, buttons := v.buildMap, v.buttons;
      new;
      if buildMap.Some? && |buttons| > 0 {
        SetOutcomeMap(InitialMode(buttons));
      }
    }

    /** `setOutcomeMap(mode)`. */
    method SetOutcomeMap(mode: string)
      modifies this
      ensures View() == SwitchMode(old(View()), mode)
    {
      if buildMap.None? {
        return;
      }
      var m := buildMap.value;
      var kicker := Substitute(m.kicker, GetAttribute(m.attrs, ModeKey(mode, "kicker")));
      var rows := m.rows;
      var k := 0;
      while k < |rows|
        invariant 0 <= k <= |rows| == |m.rows|
        invariant forall j :: 0 <= j < k ==> rows[j] == UpdateRow(m.rows[j], mode)
        invariant forall j :: k <= j < |rows| ==> rows[j] == m.rows[j]
      {
        rows := rows[k := UpdateRow(rows[k], mode)];
        k := k + 1;
      }
      assert rows == seq(|m.rows|, j requires 0 <= j < |m.rows| => UpdateRow(m.rows[j], mode));
      buildMap := Some(BuildMap(m.attrs, kicker, rows));
      k := 0;
      while k < |buttons|
        invariant 0 <= k <= |buttons| == |old(buttons)|
        invariant forall j :: 0 <= j < k ==> buttons[j] == MarkButton(old(buttons)[j], mode)
        invariant forall j :: k <= j < |buttons| ==> buttons[j] == old(buttons)[j]
        invariant buildMap == SwitchMode(old(View()), mode).buildMap
      {
        buttons := buttons[k := MarkButton(buttons[k], mode)];
        k := k + 1;
      }
    }

    /** A click on button k: `setOutcomeMap(btn.getAttribute('data-map') || 'concept')`. */
    method ClickButton(k: nat)
      requires k < |buttons|
      modifies this
      ensures View() == SwitchMode(old(View()), if old(buttons)[k].key == "" then DefaultMode else old(buttons)[k].key)
    {
      var mode := if buttons[k].key == "" then DefaultMode else buttons[k].key;
      SetOutcomeMap(mode);
    }
  }
}
