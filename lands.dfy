/**
 * The "lands" of a number: its three-digit groups, as the ordered PHP array
 * the speller passes around, and the spelled groups keyed the same way.
 */
module Lands {
  import opened Php
  import opened Currencies

  /**
   * The groups of a number in the order of the PHP array: the fraction keys
   * -|dec| .. -1 first, then the integer keys 0 .. |ints|-1. `ints[k]` sits
   * under key k (key 0 is the units group, key 1 the thousands, ...) and
   * `dec[i]` under key -(i+1) (key -1 is the first three fraction digits).
   */
  datatype Lands = Lands(dec: seq<nat>, ints: seq<nat>)
  {
    predicate HasKey(k: int) {
      -|dec| <= k < |ints|
    }

    /** `$numberLands[k]`. */
    function At(k: int): nat
      requires HasKey(k)
    {
      if k >= 0 then ints[k] else dec[-k - 1]
    }

    /** `reset($numberLands)`: the value under the first key in array order. */
    function First(): (r: nat)
      requires ints != []
      ensures r == At(-|dec|)
    {
      if dec != [] then dec[|dec| - 1] else ints[0]
    }

    /** The key at position `i` of the array order. */
    function KeyAt(i: nat): (k: int)
      requires i < |dec| + |ints|
      ensures HasKey(k)
    {
      i - |dec|
    }

    /** Every group holds three decimal digits. */
    predicate Bounded() {
      (forall k :: 0 <= k < |ints| ==> ints[k] <= 999) && (forall i :: 0 <= i < |dec| ==> dec[i] <= 999)
    }
  }

  /** One spelled group: its key and its words. */
  datatype Entry = Entry(key: int, text: string)

  /** Keys strictly increase along the list, as in the array `spell` builds. */
  predicate Ascending(s: seq<Entry>) {
    forall i, j :: 0 <= i < j < |s| ==> s[i].key < s[j].key
  }

  /** `array_key_exists(k, $numberLandsSpelled)`. */
  predicate Spelled(s: seq<Entry>, k: int) {
    exists i :: 0 <= i < |s| && s[i].key == k
  }

  /** Every spelled key names a group of `l`. */
  predicate KeysIn(s: seq<Entry>, l: Lands) {
    forall i :: 0 <= i < |s| ==> l.HasKey(s[i].key)
  }

  /** The words of the spelled groups, in array order. */
  function Texts(s: seq<Entry>): (r: seq<string>)
    ensures |r| == |s|
    ensures forall i :: 0 <= i < |s| ==> r[i] == s[i].text
  {
    if s == [] then [] else [s[0].text] + Texts(s[1..])
  }

  /** How a number is spelled: as a plain number, or as an amount of a currency with this naming rule. */
  datatype Spelling = Number | CurrencyIn(rule: Rule)

  /**
   * The join both locales use for two or more groups: highest group first.
   * If the first land is at most 100 or a multiple of 100, the last group is
   * attached with `lastSep` and the others with `defaultSep`; otherwise
   * `defaultSep` is used throughout.
   */
  function JoinLands(defaultSep: string, lastSep: string, texts: seq<string>, first: nat): string
    requires |texts| >= 2
  {
    var highFirst := Reverse(texts);
    if first <= 100 || first % 100 == 0 then
      Implode(defaultSep, highFirst[..|highFirst| - 1]) + lastSep + highFirst[|highFirst| - 1]
    else
      Implode(defaultSep, highFirst)
  }

  /** Joining a list is joining all but its last element, then the separator and that element. */
  lemma {:induction false} ImplodeLast(sep: string, parts: seq<string>)
    requires |parts| >= 2
    ensures Implode(sep, parts) == Implode(sep, parts[..|parts| - 1]) + sep + parts[|parts| - 1]
  {
    if |parts| > 2 {
      ImplodeLast(sep, parts[1..]);
      assert parts[1..][..|parts[1..]| - 1] == parts[..|parts| - 1][1..];
    }
  }

  /** The first land only decides the last separator: with equal separators the join is a plain implode. */
  lemma JoinLandsSameSeparators(sep: string, texts: seq<string>, first: nat)
    requires |texts| >= 2
    ensures JoinLands(sep, sep, texts, first) == Implode(sep, Reverse(texts))
  {
    ImplodeLast(sep, Reverse(texts));
  }

  /** Two groups: the higher one, the separator the first land selects, then the lower one. */
  lemma JoinLandsTwo(defaultSep: string, lastSep: string, low: string, high: string, first: nat)
    ensures JoinLands(defaultSep, lastSep, [low, high], first)
         == high + (if first <= 100 || first % 100 == 0 then lastSep else defaultSep) + low
  {
    var highFirst := Reverse([low, high]);
    assert highFirst == [high, low];
    assert highFirst[..1] == [high];
    assert Implode(defaultSep, [high, low]) == high + defaultSep + low by {
      assert [high, low][1..] == [low];
    }
  }
}
