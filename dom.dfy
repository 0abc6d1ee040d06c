/**
 * The parts of the DOM the page script reads and writes, as plain values:
 * element attributes, optional text slots, and the buttons of a segmented
 * control (`.seg-btn`).
 */
module Dom {
  import opened Wrappers

  /**
   * An element's attributes, by attribute name. The HTML parser stores
   * attribute names in ASCII lower case, and so does `setAttribute`.
   */
  type Attributes = map<string, string>

  /** ASCII lower-casing of one code point: 'A'..'Z' become 'a'..'z', everything else is kept. */
  function LowerChar(c: char): char
  {
    if 'A' <= c <= 'Z' then (c as int + 32) as char else c
  }

  /** The ASCII lower-casing HTML applies to attribute names. */
  function AsciiLower(s: string): (r: string)
    ensures |r| == |s|
    ensures forall k :: 0 <= k < |s| ==> r[k] == LowerChar(s[k])
  {
    seq(|s|, k requires 0 <= k < |s| => LowerChar(s[k]))
  }

  /** Lower-casing twice is lower-casing once. */
  lemma AsciiLowerIdempotent(s: string)
    ensures AsciiLower(AsciiLower(s)) == AsciiLower(s)
  {
    var once := AsciiLower(s);
    var twice := AsciiLower(once);
    forall k | 0 <= k < |s|
      ensures twice[k] == once[k]
    {
      assert once[k] == LowerChar(s[k]);
    }
  }

  /**
   * `el.getAttribute(key)` on an HTML element: the key is lower-cased before
   * the lookup; None (JavaScript's null) when the element lacks the attribute.
   */
  function GetAttribute(attrs: Attributes, key: string): Option<string>
  {
    var name := AsciiLower(key);
    if name in attrs then Some(attrs[name]) else None
  }

  /** Two keys that lower-case alike read the same attribute. */
  lemma GetAttributeFoldsCase(attrs: Attributes, key: string)
    ensures GetAttribute(attrs, key) == GetAttribute(attrs, AsciiLower(key))
  {
    AsciiLowerIdempotent(key);
  }

  /** JavaScript truthiness of an attribute value: false exactly for null and for the empty string. */
  predicate Filled(v: Option<string>)
    ensures Filled(v) <==> v != None && v != Some("")
  {
    v.Some? && v.value != ""
  }

  /**
   * The guard `if (el && value) el.textContent = value`: a slot keeps its
   * presence, takes a filled replacement when it exists, and changes in no
   * other way.
   */
  predicate GuardedSlot(before: Option<string>, after: Option<string>, replacement: Option<string>)
  {
    && (after.Some? <==> before.Some?)
    && (before.Some? && Filled(replacement) ==> after == replacement)
    && (after != before ==> Filled(replacement) && after == replacement)
  }

  /** Text slot `current` (None: the element is missing) after the guarded write of `replacement`. */
  function Substitute(current: Option<string>, replacement: Option<string>): (r: Option<string>)
    ensures GuardedSlot(current, r, replacement)
  {
    if current.Some? && Filled(replacement) then replacement else current
  }

  /** Writing the same guarded value twice leaves what the first write left. */
  lemma SubstituteTwice(current: Option<string>, first: Option<string>, second: Option<string>)
    ensures Filled(second) ==> Substitute(Substitute(current, first), second) == Substitute(current, second)
    ensures Substitute(Substitute(current, second), second) == Substitute(current, second)
  {
  }

  /** A `.seg-btn` with its key (`data-diagram` or `data-map`), its `active` class and its `aria-selected`. */
  datatype SegButton = SegButton(key: string, active: bool, ariaSelected: bool)

  /** Exactly the buttons whose key is `key` are active and aria-selected. */
  predicate MarkedFor(bs: seq<SegButton>, key: string)
  {
    forall k :: 0 <= k < |bs| ==> (bs[k].active <==> bs[k].key == key) && bs[k].ariaSelected == bs[k].active
  }

  function MarkButton(b: SegButton, key: string): SegButton
  {
    var on := b.key == key;
    b.(active := on, ariaSelected := on)
  }

  /** The buttons after `b.classList.toggle('active', on); b.setAttribute('aria-selected', ...)` for each. */
  function MarkButtons(bs: seq<SegButton>, key: string): (r: seq<SegButton>)
    ensures |r| == |bs|
    ensures forall k :: 0 <= k < |bs| ==> r[k].key == bs[k].key
    ensures MarkedFor(r, key)
  {
    seq(|bs|, k requires 0 <= k < |bs| => MarkButton(bs[k], key))
  }

  /** Marking is determined by the last key alone: earlier marks leave no trace. */
  lemma MarkLastWins(bs: seq<SegButton>, first: string, second: string)
    ensures MarkButtons(MarkButtons(bs, first), second) == MarkButtons(bs, second)
  {
    var a := MarkButtons(MarkButtons(bs, first), second);
    var b := MarkButtons(bs, second);
    assert forall k :: 0 <= k < |bs| ==> a[k] == b[k];
  }
}
