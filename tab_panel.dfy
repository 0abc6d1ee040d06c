/**
 * The tab/panel controller: `setActive`, `fromHash`, page initialisation,
 * tab clicks, `data-jump` links, the `hashchange` handler and the tab
 * keyboard handler. Tabs and panels are records; the URL fragment is the
 * string `location.hash` reads; focus is recorded as the target of the last
 * `focus()` call.
 */
module TabPanel {
  import opened Wrappers
  import opened JsStrings
  import Modular
  import Dom

  /**
   * A `.tab[role="tab"]`: its `data-tab` name (None when the attribute is
   * missing, which JavaScript reads as `undefined`), its `aria-selected`,
   * its `active` class and its `tabIndex`.
   */
  datatype Tab = Tab(name: Option<string>, ariaSelected: bool, active: bool, tabIndex: int)

  /** A `.panel[role="tabpanel"]`: its `data-panel` name, its `active` class and its `hidden` flag. */
  datatype Panel = Panel(name: Option<string>, active: bool, hidden: bool)

  /** The element the script last called `focus()` on, if any. */
  datatype Focus = NoFocusCall | TabFocus(tab: nat) | PanelFocus(panel: nat)

  /** The tab shown when the fragment names no tab. */
  const DefaultTab: string := "overview"

  function TabNames(ts: seq<Tab>): (r: seq<Option<string>>)
    ensures |r| == |ts| && forall k :: 0 <= k < |ts| ==> r[k] == ts[k].name
  {
    seq(|ts|, k requires 0 <= k < |ts| => ts[k].name)
  }

  function PanelNames(ps: seq<Panel>): (r: seq<Option<string>>)
    ensures |r| == |ps| && forall k :: 0 <= k < |ps| ==> r[k] == ps[k].name
  {
    seq(|ps|, k requires 0 <= k < |ps| => ps[k].name)
  }

  /** Every tab is selected, active and in the tab order exactly when its name is `name`. */
  predicate SelectionFollows(ts: seq<Tab>, name: Option<string>)
  {
    forall k :: 0 <= k < |ts| ==>
      && (ts[k].ariaSelected <==> ts[k].name == name)
      && ts[k].active == ts[k].ariaSelected
      && ts[k].tabIndex == (if ts[k].ariaSelected then 0 else -1)
  }

  /** Every panel is visible and active exactly when its name is `name`. */
  predicate VisibilityFollows(ps: seq<Panel>, name: Option<string>)
  {
    forall k :: 0 <= k < |ps| ==> (!ps[k].hidden <==> ps[k].name == name) && ps[k].active == !ps[k].hidden
  }

  function SelectTab(t: Tab, name: Option<string>): Tab
  {
    var on := t.name == name;
    t.(ariaSelected := on, active := on, tabIndex := if on then 0 else -1)
  }

  function ShowPanel(p: Panel, name: Option<string>): Panel
  {
    var on := p.name == name;
    p.(active := on, hidden := !on)
  }

  /** The tabs after the first loop of `setActive(name)`. */
  function SelectTabs(ts: seq<Tab>, name: Option<string>): (r: seq<Tab>)
    ensures TabNames(r) == TabNames(ts)
    ensures SelectionFollows(r, name)
  {
    seq(|ts|, k requires 0 <= k < |ts| => SelectTab(ts[k], name))
  }

  /** The panels after the second loop of `setActive(name)`. */
  function ShowPanels(ps: seq<Panel>, name: Option<string>): (r: seq<Panel>)
    ensures PanelNames(r) == PanelNames(ps)
    ensures VisibilityFollows(r, name)
  {
    seq(|ps|, k requires 0 <= k < |ps| => ShowPanel(ps[k], name))
  }

  /** The panels after `panels.forEach(p => p.hidden = true)`. */
  function HideAll(ps: seq<Panel>): (r: seq<Panel>)
    ensures PanelNames(r) == PanelNames(ps)
    ensures forall k :: 0 <= k < |r| ==> r[k].hidden && r[k].active == ps[k].active
  {
    seq(|ps|, k requires 0 <= k < |ps| => ps[k].(hidden := true))
  }

  /** `names.findIndex(n => n === name)` as an option: the first position carrying `name`. */
  function FindName(names: seq<Option<string>>, name: Option<string>): (r: Option<nat>)
    ensures r.Some? ==> r.value < |names| && names[r.value] == name
    ensures r.Some? ==> forall j :: 0 <= j < r.value ==> names[j] != name
    ensures r.None? <==> name !in names
    decreases |names|
  {
    if names == [] then None
    else if names[0] == name then Some(0)
    else
      assert names == [names[0]] + names[1..];
      match FindName(names[1..], name)
      case None => None
      case Some(j) => Some(j + 1)
  }

  /** Focus after `setActive`: the first panel named `name` when `focusPanel` is set and one exists. */
  function FocusAfter(ps: seq<Panel>, name: Option<string>, focusPanel: bool, prior: Focus): (r: Focus)
    ensures focusPanel && name in PanelNames(ps) ==>
      && r.PanelFocus? && r.panel < |ps| && ps[r.panel].name == name
      && forall j :: 0 <= j < r.panel ==> ps[j].name != name
    ensures !(focusPanel && name in PanelNames(ps)) ==> r == prior
  {
    var p := FindName(PanelNames(ps), name);
    if focusPanel && p.Some? then PanelFocus(p.value) else prior
  }

  /**
   * What `location.hash` reads after `history.replaceState(null, '', `#${name}`)`:
   * an absent name is stringified as "undefined", and an empty fragment reads as "".
   */
  function HashAfterWrite(name: Option<string>): (h: string)
    ensures h == "" || h[0] == '#'
    ensures h == "" <==> name == Some("")
    ensures name.Some? && name.value != "" ==> h == "#" + name.value
    ensures name.None? ==> h == "#undefined"
  {
    var text := if name.Some? then name.value else "undefined";
    if text == "" then "" else "#" + text
  }

  /** `(location.hash || '').replace('#', '').trim()`. */
  function FragmentName(hash: string): (r: string)
    ensures Trimmed(r)
    ensures hash != "" && hash[0] == '#' ==> r == Trim(hash[1..])
    ensures '#' !in hash ==> r == Trim(hash)
  {
    HashPrefix(hash);
    Trim(DeleteFirst(hash, '#'))
  }

  /** The fragment's own leading '#' is the one `replace('#', '')` deletes. */
  lemma HashPrefix(hash: string)
    ensures hash != "" && hash[0] == '#' ==> DeleteFirst(hash, '#') == hash[1..]
  {
    if hash != "" && hash[0] == '#' {
      assert hash == ['#'] + hash[1..];
      DeleteLeading('#', hash[1..]);
    }
  }

  /** `fromHash()` over the given hash and tab names. */
  function Resolve(hash: string, names: seq<Option<string>>): (r: string)
    ensures Some(r) in names || r == DefaultTab
    ensures Some(FragmentName(hash)) in names ==> r == FragmentName(hash)
    ensures r != DefaultTab ==> r == FragmentName(hash)
  {
    var n := FragmentName(hash);
    if Some(n) in names then n else DefaultTab
  }

  /** A fragment "#" + n with surrounding spaces resolves to the tab n. */
  lemma ResolvePadded(names: seq<Option<string>>, pre: string, n: string, post: string)
    requires Some(n) in names && Trimmed(n)
    requires AllSpace(pre) && AllSpace(post)
    ensures Resolve("#" + pre + n + post, names) == n
  {
    FragmentPadded(pre, n, post);
  }

  /** The name read from "#" + n with surrounding spaces is n. */
  lemma FragmentPadded(pre: string, n: string, post: string)
    requires Trimmed(n) && AllSpace(pre) && AllSpace(post)
    ensures FragmentName("#" + pre + n + post) == n
  {
    var hash := "#" + pre + n + post;
    assert hash[1..] == pre + n + post;
    TrimPadded(pre, n, post);
  }

  /** Deep links round-trip: the hash setActive writes for a known, trimmed tab name resolves back to it. */
  lemma HashRoundTrip(names: seq<Option<string>>, n: string)
    requires Some(n) in names && Trimmed(n)
    ensures Resolve(HashAfterWrite(Some(n)), names) == n
  {
    if n == "" {
      assert DeleteFirst("", '#') == "";
      TrimIdempotent("");
    } else {
      assert "#" + n == "#" + [] + n + [];
      ResolvePadded(names, [], n, []);
    }
  }

  /** Writing the resolved name to the hash and resolving again gives the same tab. */
  lemma ResolveStable(hash: string, names: seq<Option<string>>)
    ensures Resolve(HashAfterWrite(Some(Resolve(hash, names))), names) == Resolve(hash, names)
  {
    var r := Resolve(hash, names);
    if Some(r) in names {
      HashRoundTrip(names, r);
    } else {
      assert r == DefaultTab;
      assert HashAfterWrite(Some(r)) == ['#'] + DefaultTab;
      DeleteLeading('#', DefaultTab);
      TrimIdempotent(DefaultTab);
    }
  }

  function Occurrences(names: seq<Option<string>>, name: Option<string>): nat
    decreases |names|
  {
    if names == [] then 0 else (if names[0] == name then 1 else 0) + Occurrences(names[1..], name)
  }

  function CountSelected(ts: seq<Tab>): nat
    decreases |ts|
  {
    if ts == [] then 0 else (if ts[0].ariaSelected then 1 else 0) + CountSelected(ts[1..])
  }

  function CountShown(ps: seq<Panel>): nat
    decreases |ps|
  {
    if ps == [] then 0 else (if ps[0].hidden then 0 else 1) + CountShown(ps[1..])
  }

  /** A name occurs somewhere exactly when it occurs a positive number of times. */
  lemma {:induction false} OccurrencesPositive(names: seq<Option<string>>, name: Option<string>)
    ensures Occurrences(names, name) > 0 <==> name in names
    decreases |names|
  {
    if names != [] {
      assert names == [names[0]] + names[1..];
      OccurrencesPositive(names[1..], name);
    }
  }

  lemma {:induction false} SelectedCount(ts: seq<Tab>, name: Option<string>)
    requires SelectionFollows(ts, name)
    ensures CountSelected(ts) == Occurrences(TabNames(ts), name)
    decreases |ts|
  {
    if ts != [] {
      assert TabNames(ts[1..]) == TabNames(ts)[1..];
      SelectedCount(ts[1..], name);
    }
  }

  lemma {:induction false} ShownCount(ps: seq<Panel>, name: Option<string>)
    requires VisibilityFollows(ps, name)
    ensures CountShown(ps) == Occurrences(PanelNames(ps), name)
    decreases |ps|
  {
    if ps != [] {
      assert PanelNames(ps[1..]) == PanelNames(ps)[1..];
      ShownCount(ps[1..], name);
    }
  }

  /**
   * After `setActive(name)` the number of selected tabs and of visible panels
   * is the number of tabs and panels carrying that name: exactly one each
   * for a name carried once, none for an unknown name.
   */
  lemma ActiveCounts(ts: seq<Tab>, ps: seq<Panel>, name: Option<string>)
    ensures CountSelected(SelectTabs(ts, name)) == Occurrences(TabNames(ts), name)
    ensures CountShown(ShowPanels(ps, name)) == Occurrences(PanelNames(ps), name)
    ensures name !in TabNames(ts) ==> CountSelected(SelectTabs(ts, name)) == 0
    ensures name !in PanelNames(ps) ==> CountShown(ShowPanels(ps, name)) == 0
  {
    SelectedCount(SelectTabs(ts, name), name);
    ShownCount(ShowPanels(ps, name), name);
    OccurrencesPositive(TabNames(ts), name);
    OccurrencesPositive(PanelNames(ps), name);
  }

  /** JavaScript's `%` for a positive divisor: truncates toward zero, so the sign follows the dividend. */
  function JsRemainder(a: int, b: int): (r: int)
    requires b > 0
    ensures -b < r < b
    ensures a >= 0 ==> r >= 0
    ensures a <= 0 ==> r <= 0
    ensures (a - r) % b == 0
  {
    if a >= 0 then
      Modular.ModUnique(a - a % b, b, a / b, 0);
      a % b
    else
      Modular.ModUnique(a + (-a) % b, b, -((-a) / b), 0);
      -((-a) % b)
  }

  /** `(idx + dir + tabs.length) % tabs.length`: the tab that an arrow key moves focus to. */
  function NextIndex(idx: int, dir: int, n: int): (r: int)
    requires 0 <= idx < n
    requires dir == 1 || dir == -1
    ensures 0 <= r < n
    ensures dir == 1 ==> r == (if idx == n - 1 then 0 else idx + 1)
    ensures dir == -1 ==> r == (if idx == 0 then n - 1 else idx - 1)
  {
    var a := idx + dir + n;
    assert n - 1 <= a <= 2 * n;
    if a < n then
      Modular.ModUnique(a, n, 0, a);
      JsRemainder(a, n)
    else if a < 2 * n then
      Modular.ModUnique(a, n, 1, a - n);
      JsRemainder(a, n)
    else
      Modular.ModUnique(a, n, 2, 0);
      JsRemainder(a, n)
  }

  /** ArrowLeft undoes ArrowRight and vice versa. */
  lemma ArrowsInverse(idx: int, n: int)
    requires 0 <= idx < n
    ensures NextIndex(NextIndex(idx, 1, n), -1, n) == idx
    ensures NextIndex(NextIndex(idx, -1, n), 1, n) == idx
  {
  }

  /** Pressing ArrowRight `steps` times from `idx`. */
  function RightPresses(idx: int, n: int, steps: nat): (r: int)
    requires 0 <= idx < n
    ensures 0 <= r < n
    decreases steps
  {
    if steps == 0 then idx else NextIndex(RightPresses(idx, n, steps - 1), 1, n)
  }

  /** ArrowRight visits the tabs cyclically: after `steps` presses focus is on tab (idx + steps) mod n. */
  lemma {:induction false} RightPressesCycle(idx: int, n: int, steps: nat)
    requires 0 <= idx < n
    ensures RightPresses(idx, n, steps) == (idx + steps) % n
    decreases steps
  {
    if steps > 0 {
      RightPressesCycle(idx, n, steps - 1);
      Modular.ModStep(idx + steps - 1, n);
    }
  }

  /**
   * The tab controller's state. Tab and panel names never change; every
   * handler rewrites the records' selection and visibility fields in place.
   */
  class TabController {
    var tabs: seq<Tab>
    var panels: seq<Panel>
    var hash: string
    var focus: Focus

    /** `fromHash()`: the trimmed fragment when some tab carries it, else "overview". */
    function FromHash(): (r: string)
      reads this
      ensures Some(r) in TabNames(tabs) || r == DefaultTab
      ensures Some(FragmentName(hash)) in TabNames(tabs) ==> r == FragmentName(hash)
      ensures r != DefaultTab ==> r == FragmentName(hash)
    {
      Resolve(hash, TabNames(tabs))
    }

    /** Page load: all panels hidden, then `setActive(fromHash(), {updateHash: false})`. */
    constructor (tabs0: seq<Tab>, panels0: seq<Panel>, hash0: string)
      ensures tabs == SelectTabs(tabs0, Some(Resolve(hash0, TabNames(tabs0))))
      ensures panels == ShowPanels(HideAll(panels0), Some(Resolve(hash0, TabNames(tabs0))))
      ensures hash == hash0 && focus == NoFocusCall
    {
      tabs, panels, hash, focus := tabs0, panels0, hash0, NoFocusCall;
      new;
      HidePanels();
      var name := FromHash();
      SetActive(Some(name), false, false);
    }

    method HidePanels()
      modifies this
      ensures panels == HideAll(old(panels))
      ensures tabs == old(tabs) && hash == old(hash) && focus == old(focus)
    {
      var k := 0;
      while k < |panels|
        invariant 0 <= k <= |panels| == |old(panels)|
        invariant forall j :: 0 <= j < k ==> panels[j] == old(panels)[j].(hidden := true)
        invariant forall j :: k <= j < |panels| ==> panels[j] == old(panels)[j]
        invariant tabs == old(tabs) && hash == old(hash) && focus == old(focus)
      {
        panels := panels[k := panels[k].(hidden := true)];
        k := k + 1;
      }
    }

    /** `setActive(name, {focusPanel, updateHash})`. */
    method SetActive(name: Option<string>, focusPanel: bool, updateHash: bool)
      modifies this
      ensures tabs == SelectTabs(old(tabs), name)
      ensures panels == ShowPanels(old(panels), name)
      ensures hash == if updateHash then HashAfterWrite(name) else old(hash)
      ensures focus == FocusAfter(old(panels), name, focusPanel, old(focus))
    {
      var k := 0;
      while k < |tabs|
        invariant 0 <= k <= |tabs| == |old(tabs)|
        invariant forall j :: 0 <= j < k ==> tabs[j] == SelectTab(old(tabs)[j], name)
        invariant forall j :: k <= j < |tabs| ==> tabs[j] == old(tabs)[j]
        invariant panels == old(panels) && hash == old(hash) && focus == old(focus)
      {
        tabs := tabs[k := SelectTab(tabs[k], name)];
        k := k + 1;
      }
      k := 0;
      while k < |panels|
        invariant 0 <= k <= |panels| == |old(panels)|
        invariant forall j :: 0 <= j < k ==> panels[j] == ShowPanel(old(panels)[j], name)
        invariant forall j :: k <= j < |panels| ==> panels[j] == old(panels)[j]
        invariant tabs == SelectTabs(old(tabs), name) && hash == old(hash) && focus == old(focus)
      {
        panels := panels[k := ShowPanel(panels[k], name)];
        k := k + 1;
      }
      if updateHash {
        hash := HashAfterWrite(name);
      }
      if focusPanel {
        var p := FindName(PanelNames(panels), name);
        if p.Some? {
          focus := PanelFocus(p.value);
        }
      }
    }

    /** A click on tab k: `setActive(tab.dataset.tab, {focusPanel: true})`. */
    method ClickTab(k: nat)
      requires k < |tabs|
      modifies this
      ensures tabs == SelectTabs(old(tabs), old(tabs)[k].name)
      ensures panels == ShowPanels(old(panels), old(tabs)[k].name)
      ensures hash == HashAfterWrite(old(tabs)[k].name)
      ensures focus == FocusAfter(old(panels), old(tabs)[k].name, true, old(focus))
    {
      SetActive(tabs[k].name, true, true);
    }

    /**
     * A click on a `[data-jump]` element whose attribute is `target` (None
     * when absent); a missing or empty target does nothing.
     */
    method ClickJump(target: Option<string>)
      modifies this
      ensures !Dom.Filled(target) ==> tabs == old(tabs) && panels == old(panels) && hash == old(hash) && focus == old(focus)
      ensures Dom.Filled(target) ==>
        && tabs == SelectTabs(old(tabs), target)
        && panels == ShowPanels(old(panels), target)
        && hash == HashAfterWrite(target)
        && focus == FocusAfter(old(panels), target, true, old(focus))
    {
      if !Dom.Filled(target) {
        return;
      }
      SetActive(target, true, true);
    }

    /** The browser changed the fragment: `setActive(fromHash(), {focusPanel: true, updateHash: false})`. */
    method HashChange(newHash: string)
      modifies this
      ensures hash == newHash
      ensures tabs == SelectTabs(old(tabs), Some(Resolve(newHash, TabNames(old(tabs)))))
      ensures panels == ShowPanels(old(panels), Some(Resolve(newHash, TabNames(old(tabs)))))
      ensures focus == FocusAfter(old(panels), Some(Resolve(newHash, TabNames(old(tabs)))), true, old(focus))
    {
      hash := newHash;
      var name := FromHash();
      SetActive(Some(name), true, false);
    }

    /**
     * A keydown on tab k. The arrow keys move focus cyclically and change
     * nothing else; Enter and Space activate tab k; other keys do nothing.
     */
    method KeyDown(k: nat, key: string)
      requires k < |tabs|
      modifies this
      ensures key == "ArrowRight" || key == "ArrowLeft" ==>
        && tabs == old(tabs) && panels == old(panels) && hash == old(hash)
        && focus == TabFocus(NextIndex(k, if key == "ArrowRight" then 1 else -1, |tabs|))
      ensures key == "Enter" || key == " " ==>
        && tabs == SelectTabs(old(tabs), old(tabs)[k].name)
        && panels == ShowPanels(old(panels), old(tabs)[k].name)
        && hash == HashAfterWrite(old(tabs)[k].name)
        && focus == FocusAfter(old(panels), old(tabs)[k].name, true, old(focus))
      ensures key != "ArrowRight" && key != "ArrowLeft" && key != "Enter" && key != " " ==>
        tabs == old(tabs) && panels == old(panels) && hash == old(hash) && focus == old(focus)
    {
      if key == "ArrowRight" || key == "ArrowLeft" {
        var dir := if key == "ArrowRight" then 1 else -1;
        focus := TabFocus(NextIndex(k, dir, |tabs|));
      }
      if key == "Enter" || key == " " {
        SetActive(tabs[k].name, true, true);
      }
    }
  }
}
