/**
 * The workflow-diagram toggle (`setDiagram`): the image's `src` switches to
 * its `data-<kind>` attribute, the caption and config panes switch between
 * the example text and the generic text, and the segmented buttons mark the
 * chosen kind.
 */
module Diagram {
  import opened Wrappers
  import opened Dom

  /** The kind whose caption and config are the example texts; every other kind gets the generic ones. */
  const ExampleKind: string := "example"
  /** The kind a button with an empty `data-diagram` asks for. */
  const DefaultKind: string := "generic"

  // The four literal texts of the page, as opaque constants.
  const ExampleCaption: string := "example caption"
  const GenericCaption: string := "generic caption"
  const ExampleConfig: string := "example config"
  const GenericConfig: string := "generic config"

  /**
   * The diagram's state: the image's attributes (None when `#workflow-diagram`
   * is missing), the text of `#diagram-caption` and `#diagram-config` (None
   * when missing) and the `.seg-btn[data-diagram]` buttons.
   */
  datatype DiagramView = DiagramView(
    image: Option<Attributes>,
    caption: Option<string>,
    config: Option<string>,
    buttons: seq<SegButton>)

  function SourceKey(kind: string): string
  {
    "data-" + kind
  }

  /** The `src` the diagram switches to for `kind`: its filled `data-<kind>` attribute, or None. */
  function SourceFor(v: DiagramView, kind: string): (r: Option<string>)
    ensures r.Some? <==> v.image.Some? && Filled(GetAttribute(v.image.value, SourceKey(kind)))
    ensures r.Some? ==> r == GetAttribute(v.image.value, SourceKey(kind))
  {
    if v.image.Some? && Filled(GetAttribute(v.image.value, SourceKey(kind))) then
      GetAttribute(v.image.value, SourceKey(kind))
    else
      None
  }

  /** The caption text `setDiagram(kind)` writes: the example text exactly for "example", the generic one for every other kind. */
  function CaptionFor(kind: string): (r: string)
    ensures r == ExampleCaption <==> kind == ExampleKind
    ensures r == GenericCaption <==> kind != ExampleKind
  {
    if kind == ExampleKind then ExampleCaption else GenericCaption
  }

  /** The config text `setDiagram(kind)` writes: the example text exactly for "example", the generic one for every other kind. */
  function ConfigFor(kind: string): (r: string)
    ensures r == ExampleConfig <==> kind == ExampleKind
    ensures r == GenericConfig <==> kind != ExampleKind
  {
    if kind == ExampleKind then ExampleConfig else GenericConfig
  }

  /**
   * `setDiagram(kind)`: a complete no-op without a source for `kind`;
   * otherwise `src` becomes that source and no other attribute changes, the
   * caption and config panes that exist show the example texts exactly when
   * kind is "example", and exactly the buttons for `kind` are active.
   */
  function SwitchDiagram(v: DiagramView, kind: string): (r: DiagramView)
    ensures SourceFor(v, kind).None? ==> r == v
    ensures SourceFor(v, kind).Some? ==>
      && r.image.Some?
      && GetAttribute(r.image.value, "src") == SourceFor(v, kind)
      && (forall key :: AsciiLower(key) != "src" ==> GetAttribute(r.image.value, key) == GetAttribute(v.image.value, key))
      && (r.caption.Some? <==> v.caption.Some?)
      && (r.caption.Some? ==> r.caption.value == if kind == ExampleKind then ExampleCaption else GenericCaption)
      && (r.config.Some? <==> v.config.Some?)
      && (r.config.Some? ==> r.config.value == if kind == ExampleKind then ExampleConfig else GenericConfig)
      && |r.buttons| == |v.buttons|
      && (forall k :: 0 <= k < |v.buttons| ==> r.buttons[k].key == v.buttons[k].key)
      && MarkedFor(r.buttons, kind)
  {
    match SourceFor(v, kind)
    case None => v
    case Some(src) =>
      assert AsciiLower("src") == "src" by {
        var l := AsciiLower("src");
        assert l[0] == 's' && l[1] == 'r' && l[2] == 'c';
      }
      DiagramView(
        Some(v.image.value["src" := src]),
        if v.caption.Some? then Some(CaptionFor(kind)) else None,
        if v.config.Some? then Some(ConfigFor(kind)) else None,
        MarkButtons(v.buttons, kind))
  }

  /** A `data-` key never names the `src` attribute the toggle writes, whatever its letter case. */
  lemma SourceKeyIsNotSrc(kind: string)
    ensures AsciiLower(SourceKey(kind)) != "src"
  {
    assert AsciiLower(SourceKey(kind))[0] == LowerChar('d');
  }

  /**
   * `getAttribute` folds case, so the source found for a kind does not
   * depend on the letter case of the kind; the caption choice does.
   */
  lemma SourceIgnoresCase(v: DiagramView, kind: string)
    ensures SourceFor(v, kind) == SourceFor(v, AsciiLower(kind))
  {
    var a, b := AsciiLower(SourceKey(kind)), AsciiLower(SourceKey(AsciiLower(kind)));
    forall k | 0 <= k < |a|
      ensures a[k] == b[k]
    {
      if k >= 5 {
        assert SourceKey(kind)[k] == kind[k - 5];
        assert SourceKey(AsciiLower(kind))[k] == AsciiLower(kind)[k - 5];
      }
    }
    assert a == b;
  }

  /** Switching keeps every kind's source, so a later switch sees the same sources. */
  lemma SwitchKeepsSources(v: DiagramView, first: string, second: string)
    ensures SourceFor(SwitchDiagram(v, first), second) == SourceFor(v, second)
  {
    SourceKeyIsNotSrc(second);
  }

  /**
   * Only the last switch with a source matters: toggling to any kind and then
   * to `second` leaves exactly what switching to `second` alone leaves.
   */
  lemma SwitchLastWins(v: DiagramView, first: string, second: string)
    requires SourceFor(v, second).Some?
    ensures SwitchDiagram(SwitchDiagram(v, first), second) == SwitchDiagram(v, second)
  {
    var w := SwitchDiagram(v, first);
    SwitchKeepsSources(v, first, second);
    if SourceFor(v, first).Some? {
      MarkLastWins(v.buttons, first, second);
      var src := SourceFor(v, second).value;
      assert w.image.value["src" := src] == v.image.value["src" := src];
    }
  }

  /** Switching to the same kind twice is the same as switching once. */
  lemma SwitchIdempotent(v: DiagramView, kind: string)
    ensures SwitchDiagram(SwitchDiagram(v, kind), kind) == SwitchDiagram(v, kind)
  {
    if SourceFor(v, kind).Some? {
      SwitchLastWins(v, kind, kind);
    }
  }

  /** The diagram toggle's elements, updated in place. */
  class DiagramToggle {
    var image: Option<Attributes>
    var caption: Option<string>
    var config: Option<string>
    var buttons: seq<SegButton>

    function View(): DiagramView
      reads this
    {
      DiagramView(image, caption, config, buttons)
    }

    constructor (v: DiagramView)
      ensures View() == v
    {
      image, caption, config, buttons := v.image, v.caption, v.config, v.buttons;
    }

    /** `setDiagram(kind)`. */
    method SetDiagram(kind: string)
      modifies this
      ensures View() == SwitchDiagram(old(View()), kind)
    {
      if image.None? {
        return;
      }
      var src := GetAttribute(image.value, SourceKey(kind));
      if !Filled(src) {
        return;
      }
      image := Some(image.value["src" := src.value]);
      if caption.Some? {
        caption := Some(CaptionFor(kind));
      }
      if config.Some? {
        config := Some(ConfigFor(kind));
      }
      var k := 0;
      while k < |buttons|
        invariant 0 <= k <= |buttons| == |old(buttons)|
        invariant forall j :: 0 <= j < k ==> buttons[j] == MarkButton(old(buttons)[j], kind)
        invariant forall j :: k <= j < |buttons| ==> buttons[j] == old(buttons)[j]
        invariant image == Some(old(image).value["src" := src.value])
        invariant caption == (if old(caption).Some? then Some(CaptionFor(kind)) else None)
        invariant config == (if old(config).Some? then Some(ConfigFor(kind)) else None)
      {
        buttons := buttons[k := MarkButton(buttons[k], kind)];
        k := k + 1;
      }
    }

    /** A click on button k: `setDiagram(btn.getAttribute('data-diagram') || 'generic')`. */
    method ClickButton(k: nat)
      requires k < |buttons|
      modifies this
      ensures View() == SwitchDiagram(old(View()), if old(buttons)[k].key == "" then DefaultKind else old(buttons)[k].key)
    {
      var kind := if buttons[k].key == "" then DefaultKind else buttons[k].key;
      SetDiagram(kind);
    }
  }
}
