/**
 * The rotating headline (`setupRotate`): the `data-words` attribute is parsed
 * into a list of phrases, and an interval tick advances a counter modulo the
 * list's length and shows that phrase, unless the document is hidden.
 */
module Headline {
  import opened Wrappers
  import opened JsStrings
  import Modular

  /** A phrase as parsing leaves it: non-empty, trimmed and free of the separator. */
  predicate IsWord(w: string)
  {
    w != "" && Trimmed(w) && '|' !in w
  }

  /** `pieces.map(s => s.trim())`. */
  function TrimAll(pieces: seq<string>): (r: seq<string>)
    ensures |r| == |pieces|
    ensures forall k :: 0 <= k < |r| ==> r[k] == Trim(pieces[k])
  {
    seq(|pieces|, k requires 0 <= k < |pieces| => Trim(pieces[k]))
  }

  /** `pieces.filter(Boolean)`: the non-empty pieces, in order. */
  function DropEmpty(pieces: seq<string>): (r: seq<string>)
    ensures forall k :: 0 <= k < |r| ==> r[k] != "" && r[k] in pieces
    ensures forall w :: w != "" ==> multiset(r)[w] == multiset(pieces)[w]
    ensures |pieces| == 1 ==> r == if pieces[0] == "" then [] else pieces
    decreases |pieces|
  {
    if pieces == [] then []
    else
      var rest := DropEmpty(pieces[1..]);
      assert pieces == [pieces[0]] + pieces[1..];
      if pieces[0] == "" then rest else [pieces[0]] + rest
  }

  /**
   * `filter` keeps order: filtering a concatenation filters each part and
   * concatenates the results. With the one-piece case of `DropEmpty` this
   * fixes the result completely.
   */
  lemma {:induction false} DropEmptyAppend(a: seq<string>, b: seq<string>)
    ensures DropEmpty(a + b) == DropEmpty(a) + DropEmpty(b)
    decreases |a|
  {
    if a == [] {
      assert a + b == b;
    } else {
      assert (a + b)[0] == a[0];
      assert (a + b)[1..] == a[1..] + b;
      DropEmptyAppend(a[1..], b);
    }
  }

  lemma {:induction false} DropEmptyKeepsFilled(pieces: seq<string>)
    requires forall k :: 0 <= k < |pieces| ==> pieces[k] != ""
    ensures DropEmpty(pieces) == pieces
    decreases |pieces|
  {
    if pieces != [] {
      DropEmptyKeepsFilled(pieces[1..]);
    }
  }

  /**
   * The phrases of `data-words` (None: attribute missing): the trimmed
   * attribute split on '|', each piece trimmed, the empty ones dropped.
   */
  function ParseWords(dataWords: Option<string>): (words: seq<string>)
    ensures forall k :: 0 <= k < |words| ==> IsWord(words[k])
    ensures dataWords.None? ==> words == []
  {
    var raw := Trim(if dataWords.Some? then dataWords.value else "");
    if raw == "" then []
    else
      var pieces := TrimAll(Split(raw, '|'));
      PiecesTrimmed(raw);
      DropEmpty(pieces)
  }

  /** Every trimmed piece of a split is trimmed and free of the separator. */
  lemma PiecesTrimmed(raw: string)
    ensures forall k :: 0 <= k < |TrimAll(Split(raw, '|'))| ==>
      Trimmed(TrimAll(Split(raw, '|'))[k]) && '|' !in TrimAll(Split(raw, '|'))[k]
  {
    var parts := Split(raw, '|');
    forall k | 0 <= k < |parts|
      ensures '|' !in Trim(parts[k])
    {
      TrimKeepsOut(parts[k], '|');
    }
  }

  /** A joined list of words starts with its first word's first character and ends with its last word's last character. */
  lemma {:induction false} JoinEnds(ws: seq<string>, sep: char)
    requires |ws| >= 1
    requires forall k :: 0 <= k < |ws| ==> ws[k] != ""
    ensures Join(ws, sep) != ""
    ensures Join(ws, sep)[0] == ws[0][0]
    ensures Join(ws, sep)[|Join(ws, sep)| - 1] == ws[|ws| - 1][|ws[|ws| - 1]| - 1]
    decreases |ws|
  {
    if |ws| > 1 {
      JoinEnds(ws[1..], sep);
    }
  }

  /** '|'-joined words neither start nor end with a space. */
  lemma JoinedTrimmed(ws: seq<string>)
    requires |ws| >= 1
    requires forall k :: 0 <= k < |ws| ==> IsWord(ws[k])
    ensures Join(ws, '|') != "" && Trim(Join(ws, '|')) == Join(ws, '|')
  {
    JoinEnds(ws, '|');
    TrimIdempotent(Join(ws, '|'));
  }

  lemma TrimAllTrimmed(ws: seq<string>)
    requires forall k :: 0 <= k < |ws| ==> Trimmed(ws[k])
    ensures TrimAll(ws) == ws
  {
    forall k | 0 <= k < |ws|
      ensures Trim(ws[k]) == ws[k]
    {
      TrimIdempotent(ws[k]);
    }
  }

  /** Parsing is the inverse of writing the phrases into `data-words` separated by '|'. */
  lemma ParseJoined(ws: seq<string>)
    requires |ws| >= 1
    requires forall k :: 0 <= k < |ws| ==> IsWord(ws[k])
    ensures ParseWords(Some(Join(ws, '|'))) == ws
  {
    var s := Join(ws, '|');
    JoinedTrimmed(ws);
    SplitJoin(ws, '|');
    TrimAllTrimmed(ws);
    DropEmptyKeepsFilled(ws);
    calc {
      ParseWords(Some(s));
      DropEmpty(TrimAll(Split(s, '|')));
      DropEmpty(TrimAll(ws));
      DropEmpty(ws);
    }
  }

  /** One tick's counter step `(i + 1) % words.length`. */
  function Advance(i: nat, len: nat): (r: nat)
    requires i < len
    ensures r < len
    ensures r == if i == len - 1 then 0 else i + 1
  {
    Modular.ModUnique(i + 1, len, if i == len - 1 then 1 else 0, if i == len - 1 then 0 else i + 1);
    (i + 1) % len
  }

  /** The counter after `ticks` visible ticks, starting from 0. */
  function IndexAfter(ticks: nat, len: nat): (r: nat)
    requires len >= 1
    ensures r < len
    decreases ticks
  {
    if ticks == 0 then 0 else Advance(IndexAfter(ticks - 1, len), len)
  }

  /** The phrases are shown in order, cyclically: after t visible ticks the headline shows phrase t mod len. */
  lemma {:induction false} IndexAfterTicks(ticks: nat, len: nat)
    requires len >= 1
    ensures IndexAfter(ticks, len) == ticks % len
    decreases ticks
  {
    if ticks > 0 {
      IndexAfterTicks(ticks - 1, len);
      Modular.ModStep(ticks - 1, len);
    }
  }

  /** One `.rotate[data-words]` headline: its phrases, whether it rotates, its counter and its text. */
  class Rotator {
    const words: seq<string>
    const rotating: bool
    var index: nat
    var text: string

    /** A rotating headline has at least two phrases and its counter indexes one of them. */
    ghost predicate Valid()
      reads this
    {
      rotating ==> |words| >= 2 && index < |words|
    }

    /**
     * `setupRotate(el)` under the reduced-motion gate: the headline rotates
     * only when motion is allowed and there are at least two phrases.
     */
    constructor (dataWords: Option<string>, text0: string, reducedMotion: bool)
      ensures Valid()
      ensures words == ParseWords(dataWords)
      ensures rotating == (!reducedMotion && |words| >= 2)
      ensures index == 0 && text == text0
    {
      var parsed := ParseWords(dataWords);
      var rotates := !reducedMotion && |parsed| >= 2;
      words := parsed;
      rotating := rotates;
      index := 0;
      text := text0;
    }

    /** One interval tick: skipped while the document is hidden; otherwise advance the counter and show that phrase. */
    method Tick(hidden: bool)
      requires Valid()
      modifies this
      ensures Valid()
      ensures rotating && !hidden ==> index == Advance(old(index), |words|) && text == words[index]
      ensures !rotating || hidden ==> index == old(index) && text == old(text)
    {
      if !rotating || hidden {
        return;
      }
      index := (index + 1) % |words|;
      text := words[index];
    }
  }
}
