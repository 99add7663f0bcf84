/**
 * The English locale: spelling one group (1..999) and composing the spelled
 * groups into a phrase, with magnitude words, the "first one" identifier,
 * cents, the "and"-versus-comma join and the currency wrapper.
 */
module English {
  import opened Php
  import opened Currencies
  import opened Lands

  /** The locale options record; PHP `null` options are the empty string here. */
  datatype Options = Options(
    simpleSpells: map<int, string>,
    highSpells: seq<string>,
    firstOneIdentifier: string,
    zeroSpell: string,
    hundredSpell: string,
    hundredSeparator: string,
    compoundSeparator: string,
    defaultSeparator: string,
    lastSeparator: string,
    currencySeparator: string,
    currencyDecimalSeparator: string)

  /** The word table keys every lookup of `simple` needs: 1..19 and the tens 20..90. */
  predicate Basic(n: int) {
    1 <= n <= 19 || (20 <= n <= 90 && n % 10 == 0)
  }

  /** The table has a word for every basic number and none for zero. */
  predicate WellFormed(o: Options) {
    0 !in o.simpleSpells && forall n :: 1 <= n <= 90 && Basic(n) ==> n in o.simpleSpells
  }

  const DefaultWords: map<int, string> := map[
    1 := "one", 2 := "two", 3 := "three", 4 := "four", 5 := "five",
    6 := "six", 7 := "seven", 8 := "eight", 9 := "nine", 10 := "ten",
    11 := "eleven", 12 := "twelve", 13 := "thirteen", 14 := "fourteen", 15 := "fifteen",
    16 := "sixteen", 17 := "seventeen", 18 := "eighteen", 19 := "nineteen",
    20 := "twenty", 30 := "thirty", 40 := "fourty", 50 := "fifty",
    60 := "sixty", 70 := "seventy", 80 := "eighty", 90 := "ninety"]

  /** The defaults of the options record (the currency and its locale are resolved outside this model). */
  const Defaults := Options(
    DefaultWords,
    ["thousand", "million", "billion", "trillion", "quadrillion", "quintillion",
     "sextillion", "septillion", "octillion", "nonillion", "decillion"],
    "one", "zero", " hundred", " and ", "-", ", ", " and ", "", " and ")

  /** The default table has a word for 1..19 and for each of the tens 20..90, and none for zero. */
  lemma DefaultsWellFormed()
    ensures WellFormed(Defaults)
  {
    BasicInDefaultWords();
  }

  lemma BasicInDefaultWords()
    ensures forall n :: Basic(n) ==> n in DefaultWords
  {
    forall n | Basic(n)
      ensures n in DefaultWords
    {
      if n >= 20 {
        assert n == 20 || n == 30 || n == 40 || n == 50 || n == 60 || n == 70 || n == 80 || n == 90;
      } else {
        assert n in {1, 2, 3, 4, 5, 6, 7, 8, 9, 10, 11, 12, 13, 14, 15, 16, 17, 18, 19};
      }
    }
  }

  // ---------------------------------------------------------------------
  // One group

  /**
   * `simple`: the words for a group of up to three digits; null for zero,
   * which the speller drops.
   */
  function Simple(o: Options, n: nat): (r: Option<string>)
    requires WellFormed(o) && n <= 999
    ensures r.None? <==> n == 0
    ensures n in o.simpleSpells ==> r == Some(o.simpleSpells[n])
    decreases n
  {
    if n in o.simpleSpells then Some(o.simpleSpells[n])
    else if n >= 100 then
      var head := o.simpleSpells[n / 100] + o.hundredSpell;
      if n % 100 != 0 then Some(head + Or(o.hundredSeparator, " ") + Simple(o, n % 100).value)
      else Some(head)
    else if n > 20 then
      Some(o.simpleSpells[n / 10 * 10] + Or(o.compoundSeparator, " ") + o.simpleSpells[n % 10])
    else None
  }

  /** `simple` where a null result is concatenated, as "". */
  function SimpleText(o: Options, n: nat): string
    requires WellFormed(o) && n <= 999
  {
    match Simple(o, n)
    case Some(t) => t
    case None => ""
  }

  /**
   * An independent digit-wise reading of a group, for a table with exactly
   * the basic words: the hundreds word, then the tens and units words, each
   * present only when its digit asks for it.
   */
  function Spoken(o: Options, n: nat): string
    requires WellFormed(o) && 1 <= n <= 999
  {
    var h, t, u := n / 100, n / 10 % 10, n % 10;
    var low :=
      if t == 0 && u == 0 then ""
      else if t <= 1 then o.simpleSpells[10 * t + u]
      else if u == 0 then o.simpleSpells[10 * t]
      else o.simpleSpells[10 * t] + Or(o.compoundSeparator, " ") + o.simpleSpells[u];
    if h == 0 then low
    else o.simpleSpells[h] + o.hundredSpell + (if t == 0 && u == 0 then "" else Or(o.hundredSeparator, " ") + low)
  }

  /** A table holding exactly the basic words (as the defaults do). */
  predicate Standard(o: Options) {
    WellFormed(o) && forall m :: m in o.simpleSpells ==> Basic(m)
  }

  lemma {:induction false} SpokenBelowHundred(o: Options, n: nat)
    requires Standard(o) && 1 <= n <= 99
    ensures Simple(o, n) == Some(Spoken(o, n))
  {
    var t, u := n / 10 % 10, n % 10;
    assert n / 100 == 0 && t == n / 10 && n == 10 * t + u;
    if !Basic(n) {
      assert n !in o.simpleSpells;
      assert n > 20 && u != 0;
      assert n / 10 * 10 == 10 * t;
    }
  }

  /** The tens and units digits of a three-digit number are those of its last two digits. */
  lemma LastTwoDigits(n: nat)
    requires 100 <= n <= 999
    ensures var r := n % 100;
      r / 100 == 0 && r / 10 % 10 == n / 10 % 10 && r % 10 == n % 10 && (r == 0 <==> n / 10 % 10 == 0 && n % 10 == 0)
  {
    var h, r := n / 100, n % 100;
    var t, u := r / 10, r % 10;
    assert r == 10 * t + u && t <= 9 && u <= 9;
    assert n == 10 * (10 * h + t) + u;
    assert n / 10 == 10 * h + t && n % 10 == u;
    assert (10 * h + t) % 10 == t;
  }

  lemma {:induction false} SpokenHundreds(o: Options, n: nat)
    requires Standard(o) && 100 <= n <= 999
    ensures Simple(o, n) == Some(Spoken(o, n))
  {
    assert n !in o.simpleSpells;
    var r := n % 100;
    LastTwoDigits(n);
    if r != 0 {
      SpokenBelowHundred(o, r);
      assert Spoken(o, n) == o.simpleSpells[n / 100] + o.hundredSpell + Or(o.hundredSeparator, " ") + Spoken(o, r);
    } else {
      assert Spoken(o, n) == o.simpleSpells[n / 100] + o.hundredSpell;
    }
  }

  /** With the basic table, `simple` is the digit-wise reading. */
  lemma SimpleIsSpoken(o: Options, n: nat)
    requires Standard(o) && 1 <= n <= 999
    ensures Simple(o, n) == Some(Spoken(o, n))
  {
    if n < 100 {
      SpokenBelowHundred(o, n);
    } else {
      SpokenHundreds(o, n);
    }
  }

  /** The default table spells 21 as "twenty-one", 100 as "one hundred" and 101 as "one hundred and one". */
  lemma DefaultSpellings()
    ensures WellFormed(Defaults)
    ensures Simple(Defaults, 21) == Some("twenty-one")
    ensures Simple(Defaults, 100) == Some("one hundred")
    ensures Simple(Defaults, 101) == Some("one hundred and one")
    ensures Simple(Defaults, 0) == None
  {
    DefaultsWellFormed();
    DefaultTwentyOne();
    DefaultHundreds();
  }

  lemma DefaultTwentyOne()
    requires WellFormed(Defaults)
    ensures Simple(Defaults, 21) == Some("twenty-one")
  {
    var w := Defaults.simpleSpells;
    assert 21 !in w && w[20] == "twenty" && w[1] == "one";
    assert Or("-", " ") == "-";
    assert Simple(Defaults, 21) == Some(w[20] + "-" + w[1]);
    assert "twenty" + "-" + "one" == "twenty-one";
  }

  lemma DefaultHundreds()
    requires WellFormed(Defaults)
    ensures Simple(Defaults, 100) == Some("one hundred")
    ensures Simple(Defaults, 101) == Some("one hundred and one")
  {
    HundredOf(Defaults);
    HundredAndOneOf(Defaults);
  }

  /** 101 with the default words, hundred word and separator. */
  lemma HundredAndOneOf(o: Options)
    requires WellFormed(o) && o.simpleSpells == DefaultWords && o.hundredSpell == " hundred"
    requires o.hundredSeparator == " and "
    ensures Simple(o, 101) == Some("one hundred and one")
  {
    DefaultWordsOne();
    assert 101 / 100 == 1 && 101 % 100 == 1;
    assert Simple(o, 1) == Some("one");
    assert Or(" and ", " ") == " and ";
    assert Simple(o, 101) == Some("one" + " hundred" + " and " + "one");
    assert "one" + " hundred" + " and " + "one" == "one hundred and one";
  }

  /** The entries of the default table that 100 and 101 need. */
  lemma DefaultWordsOne()
    ensures 1 in DefaultWords && DefaultWords[1] == "one" && 100 !in DefaultWords && 101 !in DefaultWords
  {
  }

  // ---------------------------------------------------------------------
  // The currency wrapper

  /**
   * Whether `formatType` uses the long currency separator: an integer side,
   * a separator set, no units or thousands group spelled and a highest
   * spelled key of at least two (millions and up).
   */
  predicate LongCurrency(o: Options, spelled: seq<Entry>, side: Side) {
    && spelled != []
    && side == Integer
    && Truthy(o.currencySeparator)
    && !Spelled(spelled, 0)
    && !Spelled(spelled, 1)
    && spelled[|spelled| - 1].key >= 2
  }

  /** `formatType`: the phrase as is, or followed by the currency word for `value`. */
  function Wrap(o: Options, text: string, value: int, spelled: seq<Entry>, side: Side, spelling: Spelling): (r: string)
    ensures spelling.Number? ==> r == text
    ensures spelling.CurrencyIn? && !LongCurrency(o, spelled, side) ==> r == text + " " + spelling.rule.Name(side, value)
    ensures spelling.CurrencyIn? && LongCurrency(o, spelled, side) ==> r == text + o.currencySeparator + spelling.rule.Name(side, value)
  {
    match spelling
    case Number => text
    case CurrencyIn(rule) =>
      text + (if LongCurrency(o, spelled, side) then o.currencySeparator else " ") + rule.Name(side, value)
  }

  // ---------------------------------------------------------------------
  // Composing the groups

  /** The identifier and a space, or nothing when the identifier is null. */
  function IdPrefix(o: Options): string {
    if Truthy(o.firstOneIdentifier) then o.firstOneIdentifier + " " else ""
  }

  /** The magnitude word of key `k`; a missing entry reads as null. */
  function HighSpell(o: Options, k: int): string {
    if 1 <= k <= |o.highSpells| then o.highSpells[k - 1] else ""
  }

  /** A lone units group from 100 to 199 takes the identifier in place of its leading "one ". */
  predicate FirstOneApplies(o: Options, units: nat) {
    o.firstOneIdentifier != "one" && 100 <= units <= 199
  }

  function FirstOne(o: Options, text: string, units: nat): string {
    if FirstOneApplies(o, units) then ReplaceAll(text, "one ", IdPrefix(o)) else text
  }

  /**
   * The suffix pass on one group: magnitude words for keys from 1 up (the
   * highest one, when it is exactly one, becomes identifier + magnitude),
   * and the cents group re-spelled from its value divided by ten.
   */
  function Suffix(o: Options, e: Entry, lastKey: int, l: Lands): (r: Entry)
    requires WellFormed(o) && l.Bounded() && l.HasKey(e.key)
    ensures r.key == e.key
  {
    if e.key >= 1 then
      if e.key == lastKey && l.At(e.key) == 1 then Entry(e.key, IdPrefix(o) + HighSpell(o, e.key))
      else Entry(e.key, e.text + " " + HighSpell(o, e.key))
    else if e.key == -1 then Entry(-1, SimpleText(o, l.At(-1) / 10))
    else e
  }

  function SuffixAll(o: Options, s: seq<Entry>, lastKey: int, l: Lands): (r: seq<Entry>)
    requires WellFormed(o) && l.Bounded() && KeysIn(s, l)
    ensures |r| == |s|
    ensures forall i :: 0 <= i < |s| ==> r[i] == Suffix(o, s[i], lastKey, l)
  {
    if s == [] then [] else [Suffix(o, s[0], lastKey, l)] + SuffixAll(o, s[1..], lastKey, l)
  }

  /** The integer phrase, then the decimal one after `currencyDecimalSeparator` when both are present. */
  function Append(o: Options, integer: string, decimal: string): string {
    if Truthy(decimal) then (if Truthy(integer) then integer + Or(o.currencyDecimalSeparator, " ") else integer) + decimal
    else integer
  }

  /** What the source's `format` accepts: ordered spelled groups over at most one cents group of whole cents. */
  predicate FormatReady(o: Options, spelled: seq<Entry>, l: Lands) {
    && WellFormed(o)
    && l.Bounded()
    && l.ints != []
    && |l.dec| <= 1
    && (forall i :: 0 <= i < |l.dec| ==> l.dec[i] % 10 == 0)
    && Ascending(spelled)
    && KeysIn(spelled, l)
  }

  /** The code as written, or as evidently intended (see the README's findings). */
  datatype Revision = AsWritten | Intended

  /**
   * The currency value a lone integer group is wrapped with. As written it is
   * always two (plural); intended is two unless the group is the units group.
   */
  function Amount(rev: Revision, rest: seq<Entry>, l: Lands): nat
    requires l.ints != []
  {
    if rev == Intended && |rest| == 1 && rest[0].key == 0 then l.ints[0] else 2
  }

  /**
   * The land the join rule looks at. As written it is `reset($numberLands)`,
   * which is the zero cents group when the cents are "00"; intended is the
   * units group.
   */
  function JoinPivot(rev: Revision, l: Lands, cents: bool): nat
    requires l.ints != [] && |l.dec| <= 1
  {
    if rev == Intended || cents then l.ints[0] else l.First()
  }

  /** The integer phrase from the groups left after the cents are taken out. */
  function IntegerPhrase(rev: Revision, o: Options, rest: seq<Entry>, l: Lands, cents: bool, spelling: Spelling): string
    requires l.ints != [] && |l.dec| <= 1
  {
    if rest == [] then ""
    else if |rest| == 1 then Wrap(o, rest[0].text, Amount(rev, rest, l), rest, Integer, spelling)
    else
      var joined := JoinLands(Or(o.defaultSeparator, " "), Or(o.lastSeparator, " "), Texts(rest), JoinPivot(rev, l, cents));
      Wrap(o, joined, 2, rest, Integer, spelling)
  }

  /** What `format` does once the suffix pass has run: take the cents out, build the integer phrase, append the cents. */
  function Composed(rev: Revision, o: Options, out: seq<Entry>, l: Lands, spelling: Spelling): string
    requires l.ints != [] && |l.dec| <= 1 && out != []
    requires out[0].key == -1 ==> l.dec != []
  {
    var cents := out[0].key == -1;
    var decimal := if cents then Wrap(o, out[0].text, l.dec[0] / 10, out, Decimal, spelling) else "";
    var rest := if cents then out[1..] else out;
    Append(o, IntegerPhrase(rev, o, rest, l, cents, spelling), decimal)
  }

  /** `format`, in either revision. */
  function FormatIn(rev: Revision, o: Options, spelled: seq<Entry>, l: Lands, spelling: Spelling): string
    requires FormatReady(o, spelled, l)
  {
    if spelled == [] then Wrap(o, o.zeroSpell, 0, spelled, Integer, spelling)
    else if |spelled| == 1 && spelled[0].key == 0 then
      Wrap(o, FirstOne(o, spelled[0].text, l.ints[0]), l.ints[0], spelled, Integer, spelling)
    else
      Composed(rev, o, SuffixAll(o, spelled, spelled[|spelled| - 1].key, l), l, spelling)
  }

  /** `format` as this model has it: the corrected revision. */
  function FormatSpec(o: Options, spelled: seq<Entry>, l: Lands, spelling: Spelling): string
    requires FormatReady(o, spelled, l)
  {
    FormatIn(Intended, o, spelled, l, spelling)
  }

  /**
   * `format`: rewrite the spelled groups in place with their suffixes, take
   * the cents group out, join what is left and append the cents.
   */
  method Format(o: Options, spelled: seq<Entry>, l: Lands, spelling: Spelling) returns (result: string)
    requires FormatReady(o, spelled, l)
    ensures result == FormatSpec(o, spelled, l, spelling)
  {
    if spelled == [] {
      return Wrap(o, o.zeroSpell, 0, spelled, Integer, spelling);
    }
    var count := |spelled|;
    if count == 1 && spelled[0].key == 0 {
      return Wrap(o, FirstOne(o, spelled[0].text, l.ints[0]), l.ints[0], spelled, Integer, spelling);
    }
    var lastKey := spelled[|spelled| - 1].key;
    var out := spelled;
    var i := 0;
    while i < |out|
      invariant 0 <= i <= |out| == |spelled|
      invariant forall j :: 0 <= j < i ==> out[j] == Suffix(o, spelled[j], lastKey, l)
      invariant forall j :: i <= j < |out| ==> out[j] == spelled[j]
    {
      out := out[i := Suffix(o, out[i], lastKey, l)];
      i := i + 1;
    }
    assert out == SuffixAll(o, spelled, lastKey, l);
    var decimal := "";
    var cents := out[0].key == -1;
    if cents {
      count := count - 1;
      decimal := Wrap(o, out[0].text, l.dec[0] / 10, out, Decimal, spelling);
      out := out[1..];
    }
    result := "";
    if count == 1 {
      result := Wrap(o, out[0].text, Amount(Intended, out, l), out, Integer, spelling);
    } else if count > 1 {
      var joined := JoinLands(Or(o.defaultSeparator, " "), Or(o.lastSeparator, " "), Texts(out), l.ints[0]);
      result := Wrap(o, joined, 2, out, Integer, spelling);
    }
    if Truthy(decimal) {
      if Truthy(result) {
        result := result + Or(o.currencyDecimalSeparator, " ");
      }
      result := result + decimal;
    }
  }

  // ---------------------------------------------------------------------
  // Properties of the phrase

  /**
   * Thousands and units: the thousands phrase, the separator the join's land
   * selects, the units words. The corrected revision looks at the units land;
   * the code as written at the first land of the array.
   */
  lemma Thousands(rev: Revision, o: Options, units: string, thousands: string, l: Lands)
    requires FormatReady(o, [Entry(0, units), Entry(1, thousands)], l) && |l.ints| == 2
    ensures var p := JoinPivot(rev, l, false);
      FormatIn(rev, o, [Entry(0, units), Entry(1, thousands)], l, Number)
      == (if l.ints[1] == 1 then IdPrefix(o) + HighSpell(o, 1) else thousands + " " + HighSpell(o, 1))
         + (if p <= 100 || p % 100 == 0 then Or(o.lastSeparator, " ") else Or(o.defaultSeparator, " "))
         + units
  {
    var s := [Entry(0, units), Entry(1, thousands)];
    var out := SuffixAll(o, s, 1, l);
    assert out[0] == Entry(0, units);
    assert Texts(out) == [units, out[1].text];
    assert FormatIn(rev, o, s, l, Number) == Composed(rev, o, out, l, Number);
    JoinLandsTwo(Or(o.defaultSeparator, " "), Or(o.lastSeparator, " "), units, out[1].text, JoinPivot(rev, l, false));
  }

  /** The suffix pass over groups with keys from 0 up reads only the integer groups. */
  lemma SuffixAllIntegerKeys(o: Options, s: seq<Entry>, lastKey: int, l: Lands)
    requires WellFormed(o) && l.Bounded() && KeysIn(s, l)
    requires forall i :: 0 <= i < |s| ==> s[i].key >= 0
    ensures KeysIn(s, Lands([], l.ints))
    ensures SuffixAll(o, s, lastKey, l) == SuffixAll(o, s, lastKey, Lands([], l.ints))
  {
    var l' := Lands([], l.ints);
    var a := SuffixAll(o, s, lastKey, l);
    var b := SuffixAll(o, s, lastKey, l');
    forall i | 0 <= i < |s|
      ensures l'.HasKey(s[i].key)
    {
      assert l.HasKey(s[i].key);
    }
    forall i | 0 <= i < |s|
      ensures a[i] == b[i]
    {
      assert l.At(s[i].key) == l'.At(s[i].key);
      assert a[i] == Suffix(o, s[i], lastKey, l) && b[i] == Suffix(o, s[i], lastKey, l');
    }
    assert a == b;
  }

  /** The corrected integer phrase reads the fraction of `l` nowhere. */
  lemma IntegerPhraseIntended(o: Options, rest: seq<Entry>, l: Lands, cents: bool, spelling: Spelling)
    requires l.ints != [] && |l.dec| <= 1
    ensures IntegerPhrase(Intended, o, rest, l, cents, spelling)
         == IntegerPhrase(Intended, o, rest, Lands([], l.ints), false, spelling)
  {
  }

  /** Composition with a cents group: the integer phrase of the other groups, then the cents. */
  lemma ComposedWithCents(o: Options, out: seq<Entry>, l: Lands, spelling: Spelling)
    requires l.ints != [] && |l.dec| == 1 && out != [] && out[0].key == -1
    ensures Composed(Intended, o, out, l, spelling)
         == Append(o, IntegerPhrase(Intended, o, out[1..], Lands([], l.ints), false, spelling),
                      Wrap(o, out[0].text, l.dec[0] / 10, out, Decimal, spelling))
  {
    IntegerPhraseIntended(o, out[1..], l, true, spelling);
  }

  /** The suffix pass on all groups but the first is the tail of the suffix pass on all of them. */
  lemma SuffixAllTail(o: Options, s: seq<Entry>, lastKey: int, l: Lands)
    requires WellFormed(o) && l.Bounded() && KeysIn(s, l) && s != []
    ensures KeysIn(s[1..], l)
    ensures SuffixAll(o, s, lastKey, l)[1..] == SuffixAll(o, s[1..], lastKey, l)
  {
    assert forall i :: 0 <= i < |s[1..]| ==> s[1..][i] == s[i + 1];
  }

  /** The groups after a cents group are ready to be formatted without the fraction. */
  lemma ReadyWithoutCents(o: Options, spelled: seq<Entry>, l: Lands)
    requires FormatReady(o, spelled, l) && spelled != [] && spelled[0].key == -1
    ensures forall i :: 0 <= i < |spelled[1..]| ==> spelled[1..][i].key >= 0
    ensures FormatReady(o, spelled[1..], Lands([], l.ints))
  {
    var s' := spelled[1..];
    forall i | 0 <= i < |s'| ensures 0 <= s'[i].key < |l.ints| {
      assert s'[i] == spelled[i + 1] && spelled[0].key < spelled[i + 1].key;
    }
    forall i, j | 0 <= i < j < |s'| ensures s'[i].key < s'[j].key {
      assert s'[i] == spelled[i + 1] && s'[j] == spelled[j + 1];
    }
  }

  /** A phrase without cents is the integer phrase of its suffixed groups. */
  lemma WithoutCents(o: Options, s: seq<Entry>, l: Lands, spelling: Spelling)
    requires FormatReady(o, s, l) && s != []
    requires forall i :: 0 <= i < |s| ==> s[i].key >= 0
    requires !(|s| == 1 && s[0].key == 0 && FirstOneApplies(o, l.ints[0]))
    ensures KeysIn(s, Lands([], l.ints))
    ensures FormatSpec(o, s, l, spelling)
         == IntegerPhrase(Intended, o, SuffixAll(o, s, s[|s| - 1].key, Lands([], l.ints)), Lands([], l.ints), false, spelling)
  {
    var last := s[|s| - 1].key;
    SuffixAllIntegerKeys(o, s, last, l);
    if |s| == 1 && s[0].key == 0 {
      assert SuffixAll(o, s, last, l)[0] == s[0];
    } else {
      var out := SuffixAll(o, s, last, l);
      assert FormatSpec(o, s, l, spelling) == Composed(Intended, o, out, l, spelling);
      ComposedIntegerKeys(o, out, l, spelling);
    }
  }

  /** A phrase with cents is the integer phrase of the other suffixed groups, then the cents. */
  lemma WithCents(o: Options, s: seq<Entry>, l: Lands, spelling: Spelling)
    requires FormatReady(o, s, l) && |s| >= 2 && s[0].key == -1
    ensures KeysIn(s[1..], Lands([], l.ints))
    ensures FormatSpec(o, s, l, spelling)
         == Append(o, IntegerPhrase(Intended, o, SuffixAll(o, s[1..], s[|s| - 1].key, Lands([], l.ints)), Lands([], l.ints), false, spelling),
                      Wrap(o, SimpleText(o, l.dec[0] / 10), l.dec[0] / 10, s, Decimal, spelling))
  {
    var last := s[|s| - 1].key;
    var out := SuffixAll(o, s, last, l);
    assert FormatSpec(o, s, l, spelling) == Composed(Intended, o, out, l, spelling);
    ReadyWithoutCents(o, s, l);
    SuffixAllTail(o, s, last, l);
    SuffixAllIntegerKeys(o, s[1..], last, l);
    assert out[1..] == SuffixAll(o, s[1..], last, Lands([], l.ints));
    assert out[0].text == SimpleText(o, l.dec[0] / 10);
    ComposedWithCents(o, out, l, spelling);
  }

  /**
   * With cents, the phrase is the phrase of the integer groups alone, then
   * the cents spelled from the cents group (`currencyDecimalSeparator`
   * between them when both are present).
   */
  lemma CentsFollowInteger(o: Options, spelled: seq<Entry>, l: Lands, spelling: Spelling)
    requires FormatReady(o, spelled, l)
    requires |spelled| >= 2 && spelled[0].key == -1
    requires !(|spelled| == 2 && spelled[1].key == 0 && FirstOneApplies(o, l.ints[0]))
    ensures FormatReady(o, spelled[1..], Lands([], l.ints))
    ensures FormatSpec(o, spelled, l, spelling)
         == Append(o, FormatSpec(o, spelled[1..], Lands([], l.ints), spelling),
                      Wrap(o, SimpleText(o, l.dec[0] / 10), l.dec[0] / 10, spelled, Decimal, spelling))
  {
    var s', l' := spelled[1..], Lands([], l.ints);
    var last := spelled[|spelled| - 1].key;
    ReadyWithoutCents(o, spelled, l);
    assert s'[|s'| - 1].key == last && Lands([], l'.ints) == l';
    var integer := IntegerPhrase(Intended, o, SuffixAll(o, s', last, l'), l', false, spelling);
    var cents := Wrap(o, SimpleText(o, l.dec[0] / 10), l.dec[0] / 10, spelled, Decimal, spelling);
    WithoutCents(o, s', l', spelling);
    assert FormatSpec(o, s', l', spelling) == integer;
    WithCents(o, spelled, l, spelling);
    assert FormatSpec(o, spelled, l, spelling) == Append(o, integer, cents);
  }

  /** After the suffix pass, groups with keys from 0 up compose into their integer phrase, whatever the fraction. */
  lemma ComposedIntegerKeys(o: Options, out: seq<Entry>, l: Lands, spelling: Spelling)
    requires l.ints != [] && |l.dec| <= 1 && out != [] && out[0].key >= 0
    ensures Composed(Intended, o, out, l, spelling) == Composed(Intended, o, out, Lands([], l.ints), spelling)
    ensures Composed(Intended, o, out, l, spelling) == IntegerPhrase(Intended, o, out, Lands([], l.ints), false, spelling)
  {
    IntegerPhraseIntended(o, out, l, false, spelling);
  }

  /** A fraction that spells to nothing (zero cents) leaves the phrase as it is without a fraction. */
  lemma ZeroCentsIgnored(o: Options, spelled: seq<Entry>, l: Lands, spelling: Spelling)
    requires FormatReady(o, spelled, l)
    requires forall i :: 0 <= i < |spelled| ==> spelled[i].key >= 0
    ensures FormatReady(o, spelled, Lands([], l.ints))
    ensures FormatSpec(o, spelled, l, spelling) == FormatSpec(o, spelled, Lands([], l.ints), spelling)
  {
    var l' := Lands([], l.ints);
    SuffixAllIntegerKeys(o, spelled, 0, l);
    assert FormatReady(o, spelled, l');
    if spelled == [] {
    } else if |spelled| == 1 && spelled[0].key == 0 {
      assert l'.ints[0] == l.ints[0];
    } else {
      WithoutCents(o, spelled, l, spelling);
      WithoutCents(o, spelled, l', spelling);
      assert l'.ints == Lands([], l'.ints).ints;
    }
  }

  /**
   * A lone group from the thousands up: when its land is exactly one it reads
   * as the identifier (if any) and the magnitude word, otherwise as its
   * words, a space and the magnitude word.
   */
  lemma MagnitudeWord(o: Options, k: int, t: string, l: Lands)
    requires FormatReady(o, [Entry(k, t)], l) && k >= 1
    ensures l.HasKey(k)
    ensures FormatSpec(o, [Entry(k, t)], l, Number)
         == if l.At(k) == 1 then IdPrefix(o) + HighSpell(o, k) else t + " " + HighSpell(o, k)
  {
    assert [Entry(k, t)][0].key == k;
    var out := SuffixAll(o, [Entry(k, t)], k, l);
    assert out[0] == Suffix(o, Entry(k, t), k, l);
    assert FormatSpec(o, [Entry(k, t)], l, Number) == Composed(Intended, o, out, l, Number);
  }

  /** Below the highest group, every group from the thousands up ends in a space and its magnitude word. */
  lemma MagnitudeWordInner(o: Options, s: seq<Entry>, l: Lands, i: nat)
    requires FormatReady(o, s, l) && i < |s| - 1 && s[i].key >= 1
    ensures SuffixAll(o, s, s[|s| - 1].key, l)[i].text == s[i].text + " " + HighSpell(o, s[i].key)
  {
    assert s[i].key < s[|s| - 1].key;
  }

  /** The defaults with another first-one identifier. */
  function WithIdentifier(id: string): (o: Options)
    ensures WellFormed(o) && o.simpleSpells == DefaultWords && HighSpell(o, 1) == "thousand"
    ensures o.hundredSpell == " hundred" && o.firstOneIdentifier == id
  {
    DefaultsWellFormed();
    Defaults.(firstOneIdentifier := id)
  }

  /** 1000 as a lone thousands group over an empty units group. */
  lemma ThousandOf(o: Options)
    requires WellFormed(o)
    ensures FormatReady(o, [Entry(1, "one")], Lands([], [0, 1]))
    ensures FormatSpec(o, [Entry(1, "one")], Lands([], [0, 1]), Number) == IdPrefix(o) + HighSpell(o, 1)
  {
    MagnitudeWord(o, 1, "one", Lands([], [0, 1]));
  }

  /** 1000 with the identifier "a" reads "a thousand", and with no identifier "thousand". */
  lemma ThousandExamples()
    ensures FormatReady(WithIdentifier("a"), [Entry(1, "one")], Lands([], [0, 1]))
    ensures FormatSpec(WithIdentifier("a"), [Entry(1, "one")], Lands([], [0, 1]), Number) == "a thousand"
    ensures FormatReady(WithIdentifier(""), [Entry(1, "one")], Lands([], [0, 1]))
    ensures FormatSpec(WithIdentifier(""), [Entry(1, "one")], Lands([], [0, 1]), Number) == "thousand"
  {
    var a, none := WithIdentifier("a"), WithIdentifier("");
    ThousandOf(a);
    ThousandOf(none);
    Prefixes(a, none);
  }

  /** The prefix of the identifier "a" and of no identifier. */
  lemma Prefixes(a: Options, none: Options)
    requires a.firstOneIdentifier == "a" && none.firstOneIdentifier == ""
    ensures IdPrefix(a) + "thousand" == "a thousand" && IdPrefix(none) + "thousand" == "thousand"
    ensures IdPrefix(a) + "hundred" == "a hundred" && IdPrefix(none) + "hundred" == "hundred"
  {
    assert Truthy("a") && !Truthy("");
  }

  /**
   * A lone units group from 100 to 199, under an identifier other than
   * "one": its leading "one " gives way to the identifier and a space, or
   * to nothing when the identifier is null.
   */
  lemma FirstOneHundred(o: Options, rest: string, l: Lands)
    requires FormatReady(o, [Entry(0, "one " + rest)], l) && FirstOneApplies(o, l.ints[0])
    requires !Occurs(rest, "one ")
    ensures FormatSpec(o, [Entry(0, "one " + rest)], l, Number) == IdPrefix(o) + rest
  {
    ReplaceLeading(rest, "one ", IdPrefix(o));
  }

  /** A word without spaces holds no "one ". */
  lemma NoOneSpace(s: string)
    requires forall i :: 0 <= i < |s| ==> s[i] != ' '
    ensures !Occurs(s, "one ")
  {
    forall i: nat
      ensures !OccursAt(s, "one ", i)
    {
      if i + 4 <= |s| {
        assert s[i..i + 4][3] == s[i + 3];
      }
    }
  }

  /** 100 is "one hundred" under any identifier, since the words come from the table. */
  lemma HundredOf(o: Options)
    requires WellFormed(o) && o.simpleSpells == DefaultWords && o.hundredSpell == " hundred"
    ensures SimpleText(o, 100) == "one " + "hundred"
    ensures Simple(o, 100) == Some("one hundred")
  {
    DefaultWordsOne();
    assert Simple(o, 100) == Some("one" + " hundred");
    assert "one" + " hundred" == "one hundred";
  }

  /** 100 as a lone units group under an identifier other than "one". */
  lemma HundredWith(o: Options)
    requires WellFormed(o) && o.simpleSpells == DefaultWords && o.hundredSpell == " hundred"
    requires o.firstOneIdentifier != "one"
    ensures FormatReady(o, [Entry(0, SimpleText(o, 100))], Lands([], [100]))
    ensures FormatSpec(o, [Entry(0, SimpleText(o, 100))], Lands([], [100]), Number) == IdPrefix(o) + "hundred"
  {
    HundredOf(o);
    NoOneSpace("hundred");
    FirstOneHundred(o, "hundred", Lands([], [100]));
  }

  /** 100 with the identifier "a" reads "a hundred", and with no identifier "hundred". */
  lemma HundredExamples()
    ensures FormatReady(WithIdentifier("a"), [Entry(0, SimpleText(WithIdentifier("a"), 100))], Lands([], [100]))
    ensures FormatSpec(WithIdentifier("a"), [Entry(0, SimpleText(WithIdentifier("a"), 100))], Lands([], [100]), Number)
         == "a hundred"
    ensures FormatReady(WithIdentifier(""), [Entry(0, SimpleText(WithIdentifier(""), 100))], Lands([], [100]))
    ensures FormatSpec(WithIdentifier(""), [Entry(0, SimpleText(WithIdentifier(""), 100))], Lands([], [100]), Number)
         == "hundred"
  {
    var a, none := WithIdentifier("a"), WithIdentifier("");
    HundredWith(a);
    HundredWith(none);
    Prefixes(a, none);
  }

  /** "1.01": the suffix pass re-spells the cents group as "one". */
  lemma OneOhOneSuffixed()
    ensures FormatReady(Defaults, [Entry(-1, "ten"), Entry(0, "one")], Lands([10], [1]))
    ensures SuffixAll(Defaults, [Entry(-1, "ten"), Entry(0, "one")], 0, Lands([10], [1]))
         == [Entry(-1, "one"), Entry(0, "one")]
  {
    DefaultsWellFormed();
    var s := [Entry(-1, "ten"), Entry(0, "one")];
    var l := Lands([10], [1]);
    assert Suffix(Defaults, s[0], 0, l) == Entry(-1, "one") by {
      assert Simple(Defaults, 1) == Some("one");
    }
    assert Suffix(Defaults, s[1], 0, l) == s[1];
  }

  /** "1.01" in either revision: the integer phrase of the units group, then "one cent". */
  lemma OneOhOneComposed(rev: Revision)
    ensures FormatReady(Defaults, [Entry(-1, "ten"), Entry(0, "one")], Lands([10], [1]))
    ensures FormatIn(rev, Defaults, [Entry(-1, "ten"), Entry(0, "one")], Lands([10], [1]), CurrencyIn(DollarEn))
         == IntegerPhrase(rev, Defaults, [Entry(0, "one")], Lands([10], [1]), true, CurrencyIn(DollarEn)) + " and " + "one cent"
  {
    OneOhOneSuffixed();
    var out := [Entry(-1, "one"), Entry(0, "one")];
    var cents := Wrap(Defaults, "one", 1, out, Decimal, CurrencyIn(DollarEn));
    assert cents == "one cent";
    assert out[1..] == [Entry(0, "one")];
    assert Composed(rev, Defaults, out, Lands([10], [1]), CurrencyIn(DollarEn))
        == Append(Defaults, IntegerPhrase(rev, Defaults, [Entry(0, "one")], Lands([10], [1]), true, CurrencyIn(DollarEn)), cents);
  }

  /** "1.01": the units group's words and currency name, plural as written and singular as intended. */
  lemma OneOhOneUnits(rev: Revision)
    ensures IntegerPhrase(rev, Defaults, [Entry(0, "one")], Lands([10], [1]), true, CurrencyIn(DollarEn))
         == if rev == AsWritten then "one dollars" else "one dollar"
  {
    assert !Truthy(Defaults.currencySeparator);
  }

  /** The example of the first finding: "1.01" as dollars. */
  lemma AsWrittenOneDollars()
    ensures FormatReady(Defaults, [Entry(-1, "ten"), Entry(0, "one")], Lands([10], [1]))
    ensures FormatIn(AsWritten, Defaults, [Entry(-1, "ten"), Entry(0, "one")], Lands([10], [1]), CurrencyIn(DollarEn))
         == "one dollars" + " and " + "one cent"
    ensures FormatIn(Intended, Defaults, [Entry(-1, "ten"), Entry(0, "one")], Lands([10], [1]), CurrencyIn(DollarEn))
         == "one dollar" + " and " + "one cent"
  {
    OneOhOneComposed(AsWritten);
    OneOhOneComposed(Intended);
    OneOhOneUnits(AsWritten);
    OneOhOneUnits(Intended);
  }

  /** The example of the second finding: "1101.00". */
  lemma AsWrittenZeroCentsJoin()
    ensures FormatReady(Defaults, [Entry(0, "one hundred and one"), Entry(1, "one")], Lands([0], [101, 1]))
    ensures FormatIn(AsWritten, Defaults, [Entry(0, "one hundred and one"), Entry(1, "one")], Lands([0], [101, 1]), Number)
         == "one thousand" + " and " + "one hundred and one"
    ensures FormatIn(Intended, Defaults, [Entry(0, "one hundred and one"), Entry(1, "one")], Lands([0], [101, 1]), Number)
         == "one thousand" + ", " + "one hundred and one"
  {
    ZeroCentsJoin(AsWritten);
    ZeroCentsJoin(Intended);
  }

  /** "1101.00" in one revision: the separator follows the land the join looks at (0 as written, 101 as intended). */
  lemma ZeroCentsJoin(rev: Revision)
    ensures FormatReady(Defaults, [Entry(0, "one hundred and one"), Entry(1, "one")], Lands([0], [101, 1]))
    ensures FormatIn(rev, Defaults, [Entry(0, "one hundred and one"), Entry(1, "one")], Lands([0], [101, 1]), Number)
         == "one thousand" + (if rev == AsWritten then " and " else ", ") + "one hundred and one"
  {
    DefaultsWellFormed();
    var l := Lands([0], [101, 1]);
    assert IdPrefix(Defaults) + HighSpell(Defaults, 1) == "one thousand" by {
      assert IdPrefix(Defaults) == "one " && HighSpell(Defaults, 1) == "thousand";
    }
    assert Or(Defaults.lastSeparator, " ") == " and " && Or(Defaults.defaultSeparator, " ") == ", ";
    assert JoinPivot(rev, l, false) == if rev == AsWritten then 0 else 101;
    Thousands(rev, Defaults, "one hundred and one", "one", l);
  }
}
